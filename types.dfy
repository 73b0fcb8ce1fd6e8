/**
 * The data model of sgpt: the enumerations and records declared in
 * include/sgpt.h, with C's fixed-width integers as subset types of int.
 */
module SgptTypes {

  const U64_MOD: int := 0x1_0000_0000_0000_0000

  /** C `size_t` on a 64-bit target. */
  type uint64 = x: int | 0 <= x < U64_MOD
  /** C `int64_t`. */
  type int64 = x: int | -0x8000_0000_0000_0000 <= x < 0x8000_0000_0000_0000
  /** C `int` and `int32_t`. */
  type int32 = x: int | -0x8000_0000 <= x < 0x8000_0000

  /** The value an int takes once converted to `size_t` (reduction modulo 2^64). */
  function U64(x: int): (r: uint64)
    ensures 0 <= x < U64_MOD ==> r == x
    ensures (r - x) % U64_MOD == 0
  {
    x % U64_MOD
  }

  /** Congruence modulo 2^64 is transitive. */
  lemma ModTrans(a: int, b: int, c: int)
    requires (a - b) % U64_MOD == 0 && (b - c) % U64_MOD == 0
    ensures (a - c) % U64_MOD == 0
  {
    var k, j := (a - b) / U64_MOD, (b - c) / U64_MOD;
    assert a - b == k * U64_MOD && b - c == j * U64_MOD;
    assert a - c == (k + j) * U64_MOD;
  }

  /** Two values of size_t that are congruent modulo 2^64 are equal. */
  lemma ModUnique(a: int, b: int)
    requires 0 <= a < U64_MOD && 0 <= b < U64_MOD && (a - b) % U64_MOD == 0
    ensures a == b
  {
  }

  /** Multiplication respects congruence modulo 2^64. */
  lemma MulCongruent(a: int, x: int, b: int, y: int)
    requires (a - x) % U64_MOD == 0 && (b - y) % U64_MOD == 0
    ensures (a * b - x * y) % U64_MOD == 0
  {
    var k, j := (a - x) / U64_MOD, (b - y) / U64_MOD;
    assert a == x + k * U64_MOD && b == y + j * U64_MOD;
    var z := x * j + k * y + k * j * U64_MOD;
    calc {
      a * b - x * y;
      (x + k * U64_MOD) * (y + j * U64_MOD) - x * y;
      x * (j * U64_MOD) + (k * U64_MOD) * y + (k * U64_MOD) * (j * U64_MOD);
      z * U64_MOD;
    }
  }

  /** SGPT_MAX_DIMS */
  const MAX_DIMS: nat := 4

  /**
   * sizeof(sgpt_object) and sizeof(sgpt_tensor). Both are platform dependent;
   * these are the sizes of the two structs under the usual LP64 layout
   * (three 8-byte fields; 4+4+32+32+4 bytes, padding, then three pointers).
   */
  const OBJECT_SIZE: nat := 24
  const TENSOR_SIZE: nat := 104

  /** sgpt_type (SGPT_TYPE_COUNT is only the size of the table below). */
  datatype ElemType = F32 | I32

  /** SGPT_TYPE_SIZE[type]: the byte size of one element. */
  function ElemSize(t: ElemType): (n: uint64)
    ensures 0 < n
  {
    match t
    case F32 => 4  // sizeof(float)
    case I32 => 4  // sizeof(int32_t)
  }

  /** sgpt_op */
  datatype Op = OpNone | OpDup | OpAdd

  /** A C pointer: NULL or a byte address. */
  datatype Ptr = Null | At(addr: int)

  /**
   * sgpt_tensor. `ne` and `nb` are the four-entry arrays of extents and byte
   * strides, `data` the address of element (0, 0, 0, 0).
   */
  datatype Tensor = Tensor(
    elemType: ElemType,
    nDims: int32,
    ne: seq<int64>,
    nb: seq<uint64>,
    op: Op,
    src0: Ptr,
    src1: Ptr,
    data: int)

  /** A tensor handle: the address of the descriptor and its contents. */
  datatype TensorPtr = TensorPtr(addr: int, desc: Tensor)

  /**
   * sgpt_object: an allocation header. `offset` is relative to the start of
   * the context's buffer; `next` points to the following header.
   */
  datatype Object = Object(offset: uint64, size: uint64, next: Ptr)

  /** sgpt_init_params */
  datatype InitParams = InitParams(memSize: uint64, memBuffer: int)

  /** The assertion failures of src/sgpt.c, surfaced as error values. */
  datatype Error = OutOfMemory | TypeMismatch | IndexOutOfRange

  datatype Result<T> = Ok(value: T) | Err(error: Error)

  datatype Outcome = Pass | Fail(error: Error)
}
