/** Values every component shares: bytes, optional values, and the error codes of core/common/types.h. */
module Common {

  type Byte = x: int | 0 <= x < 256

  datatype Option<+T> = None | Some(value: T)

  /** The error codes the modelled operations return. */
  datatype ErrorCode =
    | Unsupported
    | PermissionDenied
    | NotFound
    | InvalidArgument
    | Again

  datatype Status = Success | Error(code: ErrorCode)

  datatype Result<+T> = Ok(value: T) | Fail(code: ErrorCode)

  const TwoTo32 := 0x1_0000_0000
  const TwoTo64 := 0x1_0000_0000_0000_0000

  type uint32 = x: int | 0 <= x < TwoTo32
  type uint64 = x: int | 0 <= x < TwoTo64

  function Min(x: int, y: int): int { if x < y then x else y }

  function Max(x: int, y: int): int { if x < y then y else x }

  /** The first n elements of s, or all of s when it is shorter. */
  function Cut<T>(s: seq<T>, n: nat): seq<T> {
    if |s| > n then s[..n] else s
  }

  function Last<T>(s: seq<T>): T
    requires s != []
  {
    s[|s| - 1]
  }
}
