/** The HTTP statuses the handlers answer with, and the integer ranges the request bindings accept. */
module Http {

  datatype Status = OK | BadRequest | Unauthorized | Forbidden | NotFound | InternalServerError

  const Int64Max: int := 0x7FFF_FFFF_FFFF_FFFF
  const Int32Min: int := -0x8000_0000
  const Int32Max: int := 0x7FFF_FFFF

  /** Whether a JSON or query number decodes into a Go `int64`. */
  predicate IsInt64(x: int)
  {
    -Int64Max - 1 <= x <= Int64Max
  }

  /** Whether a query number decodes into a Go `int32`. */
  predicate IsInt32(x: int)
  {
    Int32Min <= x <= Int32Max
  }
}
