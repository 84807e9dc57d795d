/**
 Shared vocabulary of the block cache: the fixed configuration constants of
 `file_handler.hpp`, the machine integer ranges the C++ code relies on, and a
 small Option type standing in for nullable pointers.
 */
module Common {

  /** Size in bytes of one cache block and of every backing-store transfer. */
  const BLOCK_SIZE: nat := 4096

  /** Number of blocks one file context's cache may hold. */
  const CACHE_CAPACITY: nat := 1024

  /** Largest value of a C `int` (handles are `int`). */
  const INT32_MAX: int := 0x7FFF_FFFF

  /** Largest value of `off_t`, the type of a context's cursor and of every
      `lseek` offset. The code only builds on Windows, where `off_t` is a
      32-bit `long` and `_lseek` takes a `long` position. */
  const OFF_T_MAX: int := INT32_MAX

  type byte = x: int | 0 <= x < 0x100

  /** Cache keys are `uint64_t` block numbers. */
  type uint64 = x: int | 0 <= x < 0x1_0000_0000_0000_0000

  /** A possibly-null pointer: `None` is `nullptr`. */
  datatype Option<T> = None | Some(value: T)

  /** `x` is representable as an `off_t`. */
  predicate IsOffT(x: int) {
    -OFF_T_MAX - 1 <= x <= OFF_T_MAX
  }

  function Min(a: int, b: int): int {
    if a <= b then a else b
  }

  function Max(a: int, b: int): int {
    if a <= b then b else a
  }

  /** A zero-initialised buffer, as `std::vector<char>(n)` produces. */
  function Zeros(n: nat): (z: seq<byte>)
    ensures |z| == n
    ensures forall i :: 0 <= i < n ==> z[i] == 0
  {
    seq(n, _ => 0)
  }
}
