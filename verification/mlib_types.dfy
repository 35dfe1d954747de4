/** Types shared by every MLib component: return codes, error causes,
    machine integer ranges, and a pointer type that models NULL.

    Every pointer parameter of the library, including every out-parameter,
    is a `Ptr<T>`. An out-parameter cell carries the caller's current value;
    writing it through `Set` models the library macro MLIB_SET_IFNOT_NULL,
    which stores only when the pointer is not NULL. */
module MLibTypes {

  /** A C pointer: NULL, or a pointer to a value of type T. */
  datatype Ptr<+T> = Null | Points(to: T)

  /** MLIB_RET_SUCCESS / MLIB_RET_FAILURE (and the older MLIB_SUCCESS /
      MLIB_FAILURE, which the list and state components return). */
  datatype Ret = Success | Failure

  /** The error causes MLibErr_t the core reports. */
  datatype Err = ErrNone | ErrParam | ErrNoMemory | ErrLimitOver | ErrNoEntry | ErrIndex

  /** MLIB_SET_IFNOT_NULL(p, v): store v only through a non-NULL pointer. */
  function Set<T>(p: Ptr<T>, v: T): Ptr<T>
  {
    match p
    case Null => Null
    case Points(_) => Points(v)
  }

  /** Range of size_t (64 bits). */
  const SIZE_MOD: nat := 0x1_0000_0000_0000_0000
  const SIZE_MAX: nat := 0xFFFF_FFFF_FFFF_FFFF

  /** Range of uint_t and uint32_t (32 bits). */
  const UINT_MOD: nat := 0x1_0000_0000

  type size_t = x: nat | x < 0x1_0000_0000_0000_0000

  /** size_t decrement `n--`, wrapping from 0 to SIZE_MAX. */
  function DecSize(n: size_t): (r: size_t)
    ensures (r + 1) % SIZE_MOD == n
  {
    if n == 0 then SIZE_MAX else n - 1
  }
  type uint32 = x: nat | x < 0x1_0000_0000

  /** An octet of memory. */
  type byte = bv8

  /** One more row of c is c more. */
  lemma MulSucc(a: nat, c: nat)
    ensures (a + 1) * c == a * c + c
  {
  }

  /** Multiplication by a natural number is monotonic. */
  lemma MulMono(a: nat, b: nat, c: nat)
    requires a <= b
    ensures a * c <= b * c
  {
  }
}
