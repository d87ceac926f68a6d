/** Kernel error numbers, the small result types the drivers' return
    conventions are modelled with, and the C integer widths. A C function that returns `0` or a negative
    errno becomes a `Status`; one that returns a pointer or `ERR_PTR(-e)`
    becomes a `Result`; a nullable pointer becomes an `Option`.
 */
module Errors {

  /** The errno values the modelled drivers return (include/uapi/asm-generic/errno*.h). */
  datatype Errno = ENXIO | ENOMEM | ENODEV | EINVAL | ERANGE | EADDRINUSE
  {
    /** The positive errno number; the drivers return its negation. */
    function Code(): (n: nat)
      ensures n > 0
    {
      match this
      case ENXIO => 6
      case ENOMEM => 12
      case ENODEV => 19
      case EINVAL => 22
      case ERANGE => 34
      case EADDRINUSE => 98
    }

    /** The negative return value `-errno`. */
    function Neg(): (n: int)
      ensures n < 0
    {
      -(Code() as int)
    }
  }

  datatype Option<+T> = None | Some(value: T)
  {
    function GetOr(default: T): T
    {
      match this
      case Some(v) => v
      case None => default
    }
  }

  datatype Result<+T> = Ok(value: T) | Err(error: Errno)

  /** `0` or `-errno`. */
  datatype Status = Success | Failure(error: Errno)
  {
    /** The integer a C caller sees. */
    function Ret(): (r: int)
      ensures r == 0 <==> Success?
      ensures Failure? ==> r == -(error.Code() as int)
    {
      match this
      case Success => 0
      case Failure(e) => -(e.Code() as int)
    }
  }

  /** One past the largest `u32` / `u64`. */
  const U32: nat := 0x1_0000_0000
  const U64: nat := 0x1_0000_0000_0000_0000

  function Min(a: int, b: int): int { if a <= b then a else b }
  function Max(a: int, b: int): int { if a >= b then a else b }
}
