/**
 * The bump-allocating arena of src/sgpt.c:9-19 and 34-146: a context over a
 * caller's buffer that carves each new record (allocation header, tensor
 * descriptor, owned elements) right after the previous one and keeps the
 * headers in a singly linked list.
 */
module SgptArena {
  import opened SgptTypes
  import opened SgptShape

  /**
   * The fields of sgpt_context (include/sgpt.h:45-51). `objects` holds the
   * headers reachable from `objectsBegin` through `next`, in list order.
   */
  datatype ArenaState = ArenaState(
    memSize: uint64,
    memBuffer: int,
    nObjects: int,
    objects: seq<Object>,
    objectsBegin: Ptr,
    objectsEnd: Ptr)

  /** One past the last byte of an object's record, relative to the buffer. */
  function End(o: Object): nat {
    o.offset + o.size
  }

  /** Where the header of objs[i] is placed: where the previous object ends, or 0. */
  function PrevEnd(objs: seq<Object>, i: nat): nat
    requires i <= |objs|
  {
    if i == 0 then 0 else End(objs[i - 1])
  }

  /** cur_end of src/sgpt.c:41-44. */
  function CurEnd(objs: seq<Object>): nat {
    PrevEnd(objs, |objs|)
  }

  /**
   * The header of objs[i] sits where the previous object ends, its record
   * starts right after the header, and its `next` points to the following
   * header (or is NULL at the tail).
   */
  predicate Linked(objs: seq<Object>, base: int, i: nat)
    requires i < |objs|
  {
    objs[i].offset == PrevEnd(objs, i) + OBJECT_SIZE &&
    objs[i].next == if i + 1 < |objs| then At(base + PrevEnd(objs, i + 1)) else Null
  }

  /** Every header of the list is linked as described above. */
  predicate Chained(objs: seq<Object>, base: int) {
    forall i :: 0 <= i < |objs| ==> Linked(objs, base, i)
  }

  /** The context invariant: a well-linked list within capacity, counted by nObjects. */
  predicate Inv(st: ArenaState) {
    Chained(st.objects, st.memBuffer) &&
    CurEnd(st.objects) <= st.memSize &&
    st.nObjects == |st.objects| &&
    st.objectsBegin == (if st.objects == [] then Null else At(st.memBuffer)) &&
    st.objectsEnd == (if st.objects == [] then Null else At(st.memBuffer + PrevEnd(st.objects, |st.objects| - 1)))
  }

  /** The context sgpt_init leaves behind (src/sgpt.c:10-19). */
  function Initial(params: InitParams): (st: ArenaState)
    ensures Inv(st) && st.objects == [] && CurEnd(st.objects) == 0
    ensures st.memSize == params.memSize && st.memBuffer == params.memBuffer
  {
    ArenaState(params.memSize, params.memBuffer, 0, [], Null, Null)
  }

  /**
   * size_needed of src/sgpt.c:47-54 in size_t arithmetic: the element
   * payload (for an owned tensor only) plus one descriptor.
   */
  function RequestedSize(elemType: ElemType, ne: seq<int64>, owned: bool): (size: uint64)
    ensures !owned ==> size == TENSOR_SIZE
  {
    U64((if owned then WrappedProduct(ElemSize(elemType), ne) else 0) + TENSOR_SIZE)
  }

  /**
   * The number of bytes the record really needs: the element size times the
   * exact number of elements (owned tensors only), plus one descriptor.
   * RequestedSize is this value reduced modulo 2^64 (RequestedSizeAgrees).
   */
  function ExactRequest(elemType: ElemType, ne: seq<int64>, owned: bool): (size: int)
    ensures !owned ==> size == TENSOR_SIZE
  {
    (if owned then ElemSize(elemType) * Product(ne) else 0) + TENSOR_SIZE
  }

  /** The capacity test of src/sgpt.c:55 on a request of `size` bytes, in exact arithmetic. */
  predicate Fits(st: ArenaState, size: int) {
    CurEnd(st.objects) + OBJECT_SIZE + size <= st.memSize
  }

  /**
   * The intended admission of a request: it covers at least the descriptor
   * that is written into the record, and header and record fit after the
   * last record. Both halves can fail in C (see CapacityCheckWraps and
   * DescriptorOverrunAsWritten).
   */
  predicate Admits(st: ArenaState, size: int) {
    TENSOR_SIZE <= size && Fits(st, size)
  }

  /** The same check as the C code evaluates it, in size_t (wrapping) arithmetic. */
  predicate FitsAsWritten(st: ArenaState, size: uint64) {
    U64(CurEnd(st.objects) + OBJECT_SIZE + size) <= st.memSize
  }

  /**
   * The context after a record of `size` bytes is appended
   * (src/sgpt.c:57-68, 87): a new tail header at cur_end, linked from the old
   * tail or made the list head, and one more object counted.
   */
  function Appended(st: ArenaState, size: uint64): ArenaState
    requires Fits(st, size)
  {
    var pos := CurEnd(st.objects);
    var hdr := At(st.memBuffer + pos);
    var n := |st.objects|;
    var linked := if n == 0 then st.objects else st.objects[n - 1 := st.objects[n - 1].(next := hdr)];
    st.(nObjects := st.nObjects + 1,
        objects := linked + [Object(pos + OBJECT_SIZE, size, Null)],
        objectsBegin := if n == 0 then hdr else st.objectsBegin,
        objectsEnd := hdr)
  }

  /**
   * sgpt_new_tensor_impl (src/sgpt.c:34-90) as a function of the context:
   * the new context and the new descriptor, or OutOfMemory with the context
   * untouched when the exact request is not admitted.
   */
  function NewTensor(st: ArenaState, elemType: ElemType, ne: seq<int64>, data: Ptr): (ArenaState, Result<TensorPtr>)
    requires |ne| <= MAX_DIMS
  {
    var size := ExactRequest(elemType, ne, data.Null?);
    if !Admits(st, size) then
      (st, Err(OutOfMemory))
    else
      var addr := st.memBuffer + CurEnd(st.objects) + OBJECT_SIZE;
      (Appended(st, size), Ok(TensorPtr(addr, Describe(elemType, ne, data, addr))))
  }

  lemma {:induction false} LayoutStep(objs: seq<Object>, base: int, i: nat, j: nat)
    requires Chained(objs, base) && i < j < |objs|
    ensures End(objs[i]) + OBJECT_SIZE <= objs[j].offset
    decreases j
  {
    assert Linked(objs, base, j);
    if j > i + 1 {
      LayoutStep(objs, base, i, j - 1);
      assert Linked(objs, base, j - 1);
    }
  }

  /**
   * Records never overlap and come in address order: each object's header
   * starts at or after the end of every earlier object, so offsets strictly
   * increase.
   */
  lemma LayoutOrdered(objs: seq<Object>, base: int)
    requires Chained(objs, base)
    ensures forall i, j :: 0 <= i < j < |objs| ==> End(objs[i]) + OBJECT_SIZE <= objs[j].offset
    ensures forall i, j :: 0 <= i < j < |objs| ==> objs[i].offset < objs[j].offset
  {
    forall i, j | 0 <= i < j < |objs|
      ensures End(objs[i]) + OBJECT_SIZE <= objs[j].offset
    {
      LayoutStep(objs, base, i, j);
    }
  }

  /** Every record of a valid context lies after its header and inside the buffer. */
  lemma WithinCapacity(st: ArenaState)
    requires Inv(st)
    ensures forall i :: 0 <= i < |st.objects| ==>
      OBJECT_SIZE <= st.objects[i].offset && End(st.objects[i]) <= st.memSize
  {
    var objs := st.objects;
    LayoutOrdered(objs, st.memBuffer);
    forall i | 0 <= i < |objs|
      ensures OBJECT_SIZE <= objs[i].offset && End(objs[i]) <= st.memSize
    {
      assert Linked(objs, st.memBuffer, i);
      if i < |objs| - 1 {
        assert End(objs[i]) + OBJECT_SIZE <= objs[|objs| - 1].offset;
      }
    }
  }

  /** Appending a record that fits keeps the context invariant. */
  lemma AllocationKeepsInvariant(st: ArenaState, size: uint64)
    requires Inv(st) && Fits(st, size)
    ensures Inv(Appended(st, size))
  {
    var st' := Appended(st, size);
    var objs, objs' := st.objects, st'.objects;
    var n := |objs|;
    assert |objs'| == n + 1;
    forall i | 0 <= i < n
      ensures objs'[i].offset == objs[i].offset && objs'[i].size == objs[i].size
    {
    }
    assert forall i :: 0 <= i <= n ==> PrevEnd(objs', i) == PrevEnd(objs, i);
    forall i | 0 <= i < n + 1
      ensures Linked(objs', st.memBuffer, i)
    {
      if i < n {
        assert Linked(objs, st.memBuffer, i);
      }
    }
  }

  /**
   * sgpt_new_tensor_impl succeeds exactly when the exact request covers a
   * descriptor and, with its header, fits in what is left of the buffer; on
   * failure nothing changes; on success the size_t size_needed equals the
   * exact request, the context is the appended one (and stays valid), the
   * descriptor lies inside the buffer and is the one Describe builds at the
   * new record's address.
   */
  lemma NewTensorOutcome(st: ArenaState, elemType: ElemType, ne: seq<int64>, data: Ptr)
    requires Inv(st) && |ne| <= MAX_DIMS
    ensures var (st', r) := NewTensor(st, elemType, ne, data);
      var size := ExactRequest(elemType, ne, data.Null?);
      Inv(st') &&
      (r.Ok? <==> TENSOR_SIZE <= size && CurEnd(st.objects) + OBJECT_SIZE + size <= st.memSize) &&
      (r.Err? ==> st' == st && r.error == OutOfMemory) &&
      (r.Ok? ==> RequestedSize(elemType, ne, data.Null?) == size &&
                 st' == Appended(st, size) &&
                 r.value.addr == st.memBuffer + CurEnd(st.objects) + OBJECT_SIZE &&
                 r.value.addr + TENSOR_SIZE <= st.memBuffer + st.memSize &&
                 r.value.desc == Describe(elemType, ne, data, r.value.addr))
  {
    var size := ExactRequest(elemType, ne, data.Null?);
    if Admits(st, size) {
      AllocationKeepsInvariant(st, size);
      RequestedSizeAgrees(elemType, ne, data.Null?);
    }
  }

  /**
   * The size_t size_needed is the exact request reduced modulo 2^64, so the
   * two agree whenever the exact request is a size_t value.
   */
  lemma RequestedSizeAgrees(elemType: ElemType, ne: seq<int64>, owned: bool)
    ensures (RequestedSize(elemType, ne, owned) - ExactRequest(elemType, ne, owned)) % U64_MOD == 0
    ensures 0 <= ExactRequest(elemType, ne, owned) < U64_MOD ==>
      RequestedSize(elemType, ne, owned) == ExactRequest(elemType, ne, owned)
  {
    var elem := ElemSize(elemType);
    var w := if owned then WrappedProduct(elem, ne) else 0;
    var e := if owned then elem * Product(ne) else 0;
    WrappedProductCongruent(elem, ne);
    assert (w - e) % U64_MOD == 0;
    ModTrans(U64(w + TENSOR_SIZE), w + TENSOR_SIZE, e + TENSOR_SIZE);
    if 0 <= e + TENSOR_SIZE < U64_MOD {
      ModUnique(U64(w + TENSOR_SIZE), e + TENSOR_SIZE);
    }
  }

  /**
   * Placement of a new record: its header is at cur_end, its offset is
   * cur_end + sizeof(sgpt_object), its size is the requested size, it ends
   * within capacity and it starts after every earlier record ends.
   */
  lemma AllocationPlacement(st: ArenaState, size: uint64)
    requires Inv(st) && Fits(st, size)
    ensures var st' := Appended(st, size);
      var o := st'.objects[|st.objects|];
      |st'.objects| == |st.objects| + 1 &&
      o.offset == CurEnd(st.objects) + OBJECT_SIZE && o.size == size &&
      End(o) <= st.memSize &&
      (forall i :: 0 <= i < |st.objects| ==> End(st'.objects[i]) + OBJECT_SIZE <= o.offset)
  {
    var st' := Appended(st, size);
    AllocationKeepsInvariant(st, size);
    LayoutOrdered(st'.objects, st'.memBuffer);
  }

  /**
   * List and count bookkeeping of an allocation: the new header becomes the
   * tail; objects_begin changes only on the first allocation, otherwise the
   * old tail's next points to the new header; n_objects grows by one; the
   * capacity, the buffer and every earlier header's offset and size stay.
   */
  lemma AllocationBookkeeping(st: ArenaState, size: uint64)
    requires Inv(st) && Fits(st, size)
    ensures var st' := Appended(st, size);
      var n := |st.objects|;
      var hdr := At(st.memBuffer + CurEnd(st.objects));
      st'.objectsEnd == hdr && st'.objects[n].next == Null &&
      (n == 0 ==> st'.objectsBegin == hdr) &&
      (n > 0 ==> st'.objectsBegin == st.objectsBegin && st'.objects[n - 1].next == hdr) &&
      st'.nObjects == st.nObjects + 1 &&
      st'.memSize == st.memSize && st'.memBuffer == st.memBuffer &&
      (forall i :: 0 <= i < n ==> st'.objects[i].offset == st.objects[i].offset &&
                                  st'.objects[i].size == st.objects[i].size) &&
      (forall i :: 0 <= i < n - 1 ==> st'.objects[i] == st.objects[i])
  {
  }

  /**
   * Without wrap-around an owned tensor requests element size * number of
   * elements + sizeof(sgpt_tensor) bytes.
   */
  lemma RequestedSizeExact(elemType: ElemType, ne: seq<int64>)
    requires |ne| <= MAX_DIMS && NoWrap(ElemSize(elemType), PaddedShape(ne))
    ensures RequestedSize(elemType, ne, true) == ElemSize(elemType) * Product(ne) + TENSOR_SIZE
    ensures RequestedSize(elemType, ne, true) == ElemSize(elemType) * Product(PaddedShape(ne)) + TENSOR_SIZE
  {
    var elem := ElemSize(elemType);
    PaddedProductExact(elem, ne);
    ExactSum(WrappedProduct(elem, ne), elem * Product(ne));
  }

  lemma PaddedProductExact(elem: uint64, ne: seq<int64>)
    requires |ne| <= MAX_DIMS && NoWrap(elem, PaddedShape(ne))
    ensures Product(PaddedShape(ne)) == Product(ne)
    ensures WrappedProduct(elem, ne) == elem * Product(ne)
    ensures elem * Product(ne) + TENSOR_SIZE < U64_MOD
  {
    var s := PaddedShape(ne);
    PaddingKeepsProduct(elem, ne, MAX_DIMS);
    assert s[..MAX_DIMS] == s;
    WrappedProductExact(elem, s);
  }

  lemma ExactSum(w: int, e: int)
    requires w == e && 0 <= e && e + TENSOR_SIZE < U64_MOD
    ensures U64(w + TENSOR_SIZE) == e + TENSOR_SIZE
  {
  }

  /**
   * sgpt_dup_tensor gives a tensor of the source's type, rank, extents and
   * strides whose elements follow its own descriptor, in storage that starts
   * after every earlier record and ends within capacity.
   */
  lemma DupTensorClones(st: ArenaState, src: Tensor)
    requires Inv(st) && DerivedLayout(src)
    ensures var (st', r) := NewTensor(st, src.elemType, src.ne[..src.nDims], Null);
      r.Ok? ==>
        var t := r.value.desc;
        t.elemType == src.elemType && t.nDims == src.nDims && t.ne == src.ne && t.nb == src.nb &&
        SameShape(t, src) &&
        t.data == r.value.addr + TENSOR_SIZE &&
        (forall i :: 0 <= i < |st.objects| ==> st.memBuffer + End(st.objects[i]) < t.data) &&
        r.value.addr + st'.objects[|st.objects|].size == st.memBuffer + End(st'.objects[|st.objects|]) <= st.memBuffer + st.memSize
  {
    var ne := src.ne[..src.nDims];
    NewTensorOutcome(st, src.elemType, ne, Null);
    var size := ExactRequest(src.elemType, ne, true);
    if Admits(st, size) {
      AllocationPlacement(st, size);
      AllocationBookkeeping(st, size);
      CloneShape(src, Null, st.memBuffer + CurEnd(st.objects) + OBJECT_SIZE);
    }
  }

  /**
   * sgpt_view_tensor reserves only a descriptor, and gives a tensor of the
   * source's type, rank, extents and strides over the source's data.
   */
  lemma ViewTensorShares(st: ArenaState, src: Tensor)
    requires Inv(st) && DerivedLayout(src)
    ensures var (st', r) := NewTensor(st, src.elemType, src.ne[..src.nDims], At(src.data));
      (r.Ok? <==> Fits(st, TENSOR_SIZE)) &&
      (r.Ok? ==>
        var t := r.value.desc;
        st'.objects[|st.objects|].size == TENSOR_SIZE &&
        t.elemType == src.elemType && t.nDims == src.nDims && t.ne == src.ne && t.nb == src.nb &&
        t.data == src.data)
  {
    var ne := src.ne[..src.nDims];
    NewTensorOutcome(st, src.elemType, ne, At(src.data));
    if Fits(st, TENSOR_SIZE) {
      AllocationPlacement(st, TENSOR_SIZE);
      CloneShape(src, At(src.data), st.memBuffer + CurEnd(st.objects) + OBJECT_SIZE);
    }
  }

  /**
   * The exact check admits only what the C check admits, and the two agree
   * whenever the sum does not wrap in size_t.
   */
  lemma FitsAgreesWithAsWritten(st: ArenaState, size: uint64)
    ensures Fits(st, size) ==> FitsAsWritten(st, size)
    ensures CurEnd(st.objects) + OBJECT_SIZE + size < U64_MOD ==> (Fits(st, size) <==> FitsAsWritten(st, size))
  {
  }

  /**
   * The check as written wraps: with an empty 1024-byte context, an I32
   * tensor of extent -32 requests 2^64 - 24 bytes, which the size_t sum
   * cur_end + sizeof(sgpt_object) + size_needed turns into 0, so the check
   * passes although the record ends far outside the buffer. The model's
   * allocation refuses it.
   */
  lemma CapacityCheckWraps()
    ensures var st := Initial(InitParams(1024, 0));
      var size := RequestedSize(I32, [-32], true);
      size == U64_MOD - OBJECT_SIZE &&
      FitsAsWritten(st, size) && !Fits(st, size) &&
      CurEnd(st.objects) + OBJECT_SIZE + size > st.memSize &&
      NewTensor(st, I32, [-32], Null).1 == Err(OutOfMemory)
  {
    var size := RequestedSize(I32, [-32], true);
    assert WrappedProduct(4, [-32]) == U64_MOD - 128 by {
      assert [-32][..0] == [];
    }
    assert Product([-32]) == -32 by {
      assert [-32][..0] == [];
    }
  }

  /**
   * The check as written lets a record smaller than a descriptor through:
   * with an empty 124-byte context, an F32 tensor of extent -1 requests
   * 4 * -1 + 104 = 100 bytes, and 24 + 100 <= 124 passes in either
   * arithmetic, yet the descriptor written at offset 24 ends at 128, past the
   * buffer. The model's allocation refuses it.
   */
  lemma DescriptorOverrunAsWritten()
    ensures var st := Initial(InitParams(124, 0));
      var size := RequestedSize(F32, [-1], true);
      size == 100 && size < TENSOR_SIZE &&
      FitsAsWritten(st, size) && Fits(st, size) &&
      CurEnd(st.objects) + OBJECT_SIZE + TENSOR_SIZE > st.memSize &&
      NewTensor(st, F32, [-1], Null).1 == Err(OutOfMemory)
  {
    assert WrappedProduct(4, [-1]) == U64_MOD - 4 by {
      assert [-1][..0] == [];
    }
    assert Product([-1]) == -1 by {
      assert [-1][..0] == [];
    }
  }

  /**
   * The process-wide context `ctx` of src/sgpt.c:9. The header list lives in
   * the caller's buffer in C; here it is the sequence `objects`.
   */
  class Context {
    var memSize: uint64
    var memBuffer: int
    var nObjects: int
    var objects: seq<Object>
    var objectsBegin: Ptr
    var objectsEnd: Ptr

    function State(): ArenaState
      reads this
    {
      ArenaState(memSize, memBuffer, nObjects, objects, objectsBegin, objectsEnd)
    }

    ghost predicate Valid()
      reads this
    {
      Inv(State())
    }

    /** The zero-initialised static before the first sgpt_init. */
    constructor ()
      ensures Valid() && State() == ArenaState(0, 0, 0, [], Null, Null)
    {
      memSize, memBuffer, nObjects := 0, 0, 0;
      objects := [];
      objectsBegin, objectsEnd := Null, Null;
    }

    /**
     * sgpt_init (src/sgpt.c:10-19): overwrite the context with the given
     * capacity and buffer, no objects and an empty list.
     */
    method Init(params: InitParams)
      modifies this
      ensures Valid() && State() == Initial(params)
      ensures memSize == params.memSize && memBuffer == params.memBuffer && nObjects == 0
      ensures objectsBegin == Null && objectsEnd == Null && objects == []
    {
      memSize := params.memSize;
      memBuffer := params.memBuffer;
      nObjects := 0;
      objects := [];
      objectsBegin := Null;
      objectsEnd := Null;
    }

    /**
     * sgpt_new_tensor_impl (src/sgpt.c:34-90): append a header and a record
     * for a tensor of the given type and extents, with its own elements when
     * `data` is Null and over `data` otherwise, and return its descriptor.
     */
    method NewTensorImpl(elemType: ElemType, ne: seq<int64>, data: Ptr) returns (r: Result<TensorPtr>)
      requires Valid() && |ne| <= MAX_DIMS
      modifies this
      ensures Valid()
      ensures (State(), r) == NewTensor(old(State()), elemType, ne, data)
    {
      ghost var st := State();
      NewTensorOutcome(st, elemType, ne, data);
      var n := |objects|;
      var objCur := objectsEnd;
      var curOffset := if objCur.Null? then 0 else objects[n - 1].offset;
      var curSize := if objCur.Null? then 0 else objects[n - 1].size;
      var curEnd := curOffset + curSize;

      var sizeNeeded, exactNeeded := SizeNeeded(elemType, ne, data);
      if !(TENSOR_SIZE <= exactNeeded && curEnd + OBJECT_SIZE + exactNeeded <= memSize) {
        return Err(OutOfMemory);
      }

      var objNew := Object(curEnd + OBJECT_SIZE, sizeNeeded, Null);
      var hdr := At(memBuffer + curEnd);
      if objCur.Null? {
        objectsBegin := hdr;
      } else {
        objects := objects[n - 1 := objects[n - 1].(next := hdr)];
      }
      objects := objects + [objNew];
      objectsEnd := hdr;

      var addr := memBuffer + objNew.offset;
      var t := BuildDescriptor(elemType, ne, data, addr);

      nObjects := nObjects + 1;
      r := Ok(TensorPtr(addr, t));
      assert State() == Appended(st, sizeNeeded);
    }

    /** sgpt_new_tensor_1d (src/sgpt.c:101-105). */
    method NewTensor1D(elemType: ElemType, ne0: int64) returns (r: Result<TensorPtr>)
      requires Valid()
      modifies this
      ensures Valid()
      ensures (State(), r) == NewTensor(old(State()), elemType, [ne0], Null)
    {
      r := NewTensorImpl(elemType, [ne0], Null);
    }

    /** sgpt_new_tensor_2d (src/sgpt.c:107-115). */
    method NewTensor2D(elemType: ElemType, ne0: int64, ne1: int64) returns (r: Result<TensorPtr>)
      requires Valid()
      modifies this
      ensures Valid()
      ensures (State(), r) == NewTensor(old(State()), elemType, [ne0, ne1], Null)
    {
      r := NewTensorImpl(elemType, [ne0, ne1], Null);
    }

    /** sgpt_new_tensor_3d (src/sgpt.c:117-126). */
    method NewTensor3D(elemType: ElemType, ne0: int64, ne1: int64, ne2: int64) returns (r: Result<TensorPtr>)
      requires Valid()
      modifies this
      ensures Valid()
      ensures (State(), r) == NewTensor(old(State()), elemType, [ne0, ne1, ne2], Null)
    {
      r := NewTensorImpl(elemType, [ne0, ne1, ne2], Null);
    }

    /** sgpt_new_tensor_4d (src/sgpt.c:128-138). */
    method NewTensor4D(elemType: ElemType, ne0: int64, ne1: int64, ne2: int64, ne3: int64)
      returns (r: Result<TensorPtr>)
      requires Valid()
      modifies this
      ensures Valid()
      ensures (State(), r) == NewTensor(old(State()), elemType, [ne0, ne1, ne2, ne3], Null)
    {
      r := NewTensorImpl(elemType, [ne0, ne1, ne2, ne3], Null);
    }

    /** sgpt_dup_tensor (src/sgpt.c:140-142): fresh storage of the source's type and shape. */
    method DupTensor(src: Tensor) returns (r: Result<TensorPtr>)
      requires Valid() && 0 <= src.nDims as int <= MAX_DIMS && |src.ne| == MAX_DIMS
      modifies this
      ensures Valid()
      ensures (State(), r) == NewTensor(old(State()), src.elemType, src.ne[..src.nDims], Null)
    {
      r := NewTensorImpl(src.elemType, src.ne[..src.nDims], Null);
    }

    /** sgpt_view_tensor (src/sgpt.c:144-146): a new descriptor over the source's data. */
    method ViewTensor(src: Tensor) returns (r: Result<TensorPtr>)
      requires Valid() && 0 <= src.nDims as int <= MAX_DIMS && |src.ne| == MAX_DIMS
      modifies this
      ensures Valid()
      ensures (State(), r) == NewTensor(old(State()), src.elemType, src.ne[..src.nDims], At(src.data))
    {
      r := NewTensorImpl(src.elemType, src.ne[..src.nDims], At(src.data));
    }
  }

  /**
   * The descriptor writes of src/sgpt.c:70-85: placeholder extents of 1,
   * the given extents copied in, then the strides derived from them in
   * size_t, and the data pointer set to just past the descriptor (owned) or
   * to the given data (view).
   */
  method BuildDescriptor(elemType: ElemType, ne: seq<int64>, data: Ptr, addr: int) returns (t: Tensor)
    requires |ne| <= MAX_DIMS
    ensures t == Describe(elemType, ne, data, addr)
  {
    var shape: seq<int64> := [1, 1, 1, 1];
    for i := 0 to |ne|
      invariant |shape| == MAX_DIMS
      invariant forall j :: 0 <= j < MAX_DIMS ==> shape[j] == if j < i then ne[j] else 1
    {
      shape := shape[i := ne[i]];
    }
    assert shape == PaddedShape(ne);
    var nb0 := ElemSize(elemType);
    var nb1 := U64(nb0 * U64(shape[0]));
    var nb2 := U64(nb1 * U64(shape[1]));
    var nb3 := U64(nb2 * U64(shape[2]));
    assert [nb0, nb1, nb2, nb3] == Strides(nb0, shape);
    t := Tensor(elemType, |ne|, shape, [nb0, nb1, nb2, nb3], OpNone, Null, Null,
                if data.Null? then addr + TENSOR_SIZE else data.addr);
  }

  /**
   * The computation of size_needed in src/sgpt.c:47-54: start from the
   * element size, multiply in each extent (owned tensors only), then add the
   * descriptor, all in size_t; alongside, the same computation in exact
   * arithmetic, which the intended capacity check uses.
   */
  method SizeNeeded(elemType: ElemType, ne: seq<int64>, data: Ptr) returns (size: uint64, exact: int)
    ensures size == RequestedSize(elemType, ne, data.Null?)
    ensures exact == ExactRequest(elemType, ne, data.Null?)
  {
    var acc: uint64 := 0;
    var exactAcc := 0;
    if data.Null? {
      var elem := ElemSize(elemType);
      acc := U64(acc + elem);
      exactAcc := exactAcc + elem;
      var i := 0;
      while i < |ne|
        invariant 0 <= i <= |ne|
        invariant acc == WrappedProduct(elem, ne[..i])
        invariant exactAcc == elem * Product(ne[..i])
      {
        assert ne[..i + 1][..i] == ne[..i];
        MulAssociative(elem, Product(ne[..i]), ne[i]);
        acc := U64(acc * U64(ne[i]));
        exactAcc := exactAcc * ne[i];
        i := i + 1;
      }
      assert ne[..|ne|] == ne;
    }
    size := U64(acc + TENSOR_SIZE);
    exact := exactAcc + TENSOR_SIZE;
  }
}
