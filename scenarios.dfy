/**
 * Client code mirroring the unit tests of tests/sgpt_test.c that exercise
 * the arena and the i32 accessors: each TEST_CHECK becomes an assertion the
 * contracts of the model must prove. The buffer starts at address 1000 and
 * element memory is an array indexed by byte address.
 */
module SgptScenarios {
  import opened SgptTypes
  import opened SgptShape
  import opened SgptArena
  import opened SgptAccess

  const BUFFER: int := 1000

  /**
   * The layout test_view_tensor expects of a two-element I32 tensor
   * (tests/sgpt_test.c:177-185): extents (2, 1, 1, 1), strides (4, 8, 8, 8),
   * and a record of 8 payload bytes plus one descriptor.
   */
  lemma TwoElementLayout(addr: int)
    ensures var t := Describe(I32, [2], Null, addr);
      t.nDims == 1 && t.ne == [2, 1, 1, 1] && t.nb == [4, 8, 8, 8] && t.data == addr + TENSOR_SIZE
    ensures RequestedSize(I32, [2], true) == 8 + TENSOR_SIZE
  {
    assert [2][..0] == [];
    var t := Describe(I32, [2], Null, addr);
    assert t.nb[1] == 8 && t.nb[2] == 8 && t.nb[3] == 8;
  }

  /** test_init (tests/sgpt_test.c:5-16). */
  method InitScenario() {
    var ctx := new Context();
    ctx.Init(InitParams(8, BUFFER));
    assert ctx.memSize == 8 && ctx.memBuffer == BUFFER && ctx.nObjects == 0;
    assert ctx.objectsBegin == Null && ctx.objectsEnd == Null;
  }

  /** test_new_tensor (tests/sgpt_test.c:18-67): four tensors of rank 1 to 4 in one context. */
  method NewTensorScenario() {
    var ctx := new Context();
    ctx.Init(InitParams(4096, BUFFER));
    assert [4][..0] == [];
    var a1 := ctx.NewTensor1D(F32, 4);
    assert a1.Ok?;
    StrideExample();
    assert a1.value.desc.nDims == 1 && a1.value.desc.ne == [4, 1, 1, 1];
    assert a1.value.desc.nb == [4, 16, 16, 16];
    assert ctx.nObjects == 1 && ctx.objectsBegin == At(BUFFER);

    assert Product([2, 3]) == 6 by {
      assert [2, 3][..1] == [2] && [2][..0] == [];
    }
    var a2 := ctx.NewTensor2D(F32, 2, 3);
    assert a2.Ok?;
    assert a2.value.desc.nDims == 2 && a2.value.desc.ne == [2, 3, 1, 1];
    assert a2.value.desc.nb == [4, 8, 24, 24];

    assert Product([2, 3, 5]) == 30 by {
      assert [2, 3, 5][..2] == [2, 3] && [2, 3][..1] == [2] && [2][..0] == [];
    }
    var a3 := ctx.NewTensor3D(F32, 2, 3, 5);
    assert a3.Ok?;
    assert a3.value.desc.nDims == 3 && a3.value.desc.ne == [2, 3, 5, 1];
    assert a3.value.desc.nb == [4, 8, 24, 120];

    assert Product([2, 3, 5, 7]) == 210 by {
      assert [2, 3, 5, 7][..3] == [2, 3, 5] && [2, 3, 5][..2] == [2, 3];
      assert [2, 3][..1] == [2] && [2][..0] == [];
    }
    assert PaddedShape([2, 3, 5, 7]) == [2, 3, 5, 7];
    RequestedSizeExact(F32, [2, 3, 5, 7]);
    var a4 := ctx.NewTensor4D(F32, 2, 3, 5, 7);
    assert a4.Ok?;
    assert a4.value.desc.nDims == 4 && a4.value.desc.ne == [2, 3, 5, 7];
    assert a4.value.desc.nb == [4, 8, 24, 120];
    assert ctx.nObjects == 4 && ctx.objectsBegin == At(BUFFER);
  }

  /** test_set_i32 (tests/sgpt_test.c:69-89), the 1-D part. */
  method SetGetScenario() {
    var ctx := new Context();
    ctx.Init(InitParams(4096, BUFFER));
    TwoElementLayout(BUFFER + OBJECT_SIZE);
    var a1 := ctx.NewTensor1D(I32, 2);
    assert a1.Ok?;
    var t := a1.value.desc;
    assert t.data == BUFFER + OBJECT_SIZE + TENSOR_SIZE;
    assert t.nb[0] == 4 && t.ne[0] == 2;
    var heap := new int32[BUFFER + 4096];
    assert [0][..0] == [] && [1][..0] == [];
    var s0 := SetI32_1D(t, 0, 2, heap);
    var s1 := SetI32_1D(t, 1, 3, heap);
    assert s0 == Pass && s1 == Pass;
    var g0 := GetI32_1D(t, 0, heap);
    var g1 := GetI32_1D(t, 1, heap);
    assert g0 == Ok(2) && g1 == Ok(3);
  }

  /** test_dup_tensor (tests/sgpt_test.c:145-163). */
  method DupTensorScenario() {
    var ctx := new Context();
    ctx.Init(InitParams(1024, BUFFER));
    assert [4][..0] == [];
    var a := ctx.NewTensor1D(F32, 4);
    assert a.Ok?;
    StrideExample();
    ghost var st := ctx.State();
    DupTensorClones(st, a.value.desc);
    assert a.value.desc.ne[..a.value.desc.nDims] == [4];
    var b := ctx.DupTensor(a.value.desc);
    assert b.Ok?;
    assert b.value.desc.nDims == 1 && b.value.desc.ne == [4, 1, 1, 1];
    assert b.value.desc.nb == [4, 16, 16, 16];
    assert b.value.desc.data != a.value.desc.data;
  }

  /** test_view_tensor (tests/sgpt_test.c:165-188): a two-element I32 tensor filled by memcpy. */
  method ViewTensorScenario() {
    var ctx := new Context();
    ctx.Init(InitParams(1024, BUFFER));
    TwoElementLayout(BUFFER + OBJECT_SIZE);
    var a := ctx.NewTensor1D(I32, 2);
    assert a.Ok?;
    var t := a.value.desc;
    var heap := new int32[BUFFER + 1024];
    // Fill both elements with 2 and 3, as test_view_tensor does.
    heap[t.data] := 2;
    heap[t.data + 4] := 3;
    CheckView(ctx, t, heap);
  }

  /** The checks of test_view_tensor on a view of `t`. */
  method CheckView(ctx: Context, t: Tensor, heap: array<int32>)
    requires ctx.Valid() && DerivedLayout(t) && t.elemType == I32
    requires t.nDims == 1 && t.ne == [2, 1, 1, 1] && t.nb == [4, 8, 8, 8]
    requires CurEnd(ctx.objects) + OBJECT_SIZE + TENSOR_SIZE <= ctx.memSize
    requires 0 <= t.data && t.data + 4 < heap.Length && heap[t.data] == 2 && heap[t.data + 4] == 3
    modifies ctx
  {
    ViewTensorShares(ctx.State(), t);
    var b := ctx.ViewTensor(t);
    assert b.Ok?;
    var v := b.value.desc;
    assert v.nDims == 1 && v.ne == [2, 1, 1, 1] && v.nb == [4, 8, 8, 8];
    assert v.data == t.data;
    assert [0][..0] == [] && [1][..0] == [];
    var g0 := GetI32_1D(v, 0, heap);
    var g1 := GetI32_1D(v, 1, heap);
    assert g0 == Ok(2) && g1 == Ok(3);
  }

  /**
   * A record that does not fit is refused and leaves the context as it was;
   * an index equal to the extent, or a read through an F32 tensor, is refused.
   */
  method RefusalScenario() {
    var ctx := new Context();
    ctx.Init(InitParams(1024, BUFFER));
    assert [300][..0] == [];
    var big := ctx.NewTensor1D(I32, 300);
    assert big == Err(OutOfMemory);
    assert ctx.nObjects == 0 && ctx.objectsEnd == Null;

    TwoElementLayout(BUFFER + OBJECT_SIZE);
    var a := ctx.NewTensor1D(I32, 2);
    assert a.Ok?;
    var heap := new int32[BUFFER + 1024];
    // Index 2 equals the extent: the C check lets it through, the intended one does not.
    var g := GetI32_1D(a.value.desc, 2, heap);
    assert g == Err(IndexOutOfRange);

    var f := ctx.NewTensor1D(F32, 2);
    assert f.Ok?;
    var h := GetI32_1D(f.value.desc, 0, heap);
    assert h == Err(TypeMismatch);
  }
}
