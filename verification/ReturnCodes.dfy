/** The library's return codes and the exceptions that carry them to the API boundary. */
module ReturnCodes {
  type ErrorCode = c: int | c < 0 witness -1

  const CRYPTO_AES_ENCRYPT: ErrorCode := -0x2000 - 1
  const CRYPTO_AES_DECRYPT: ErrorCode := -0x2000 - 2
  const CRYPTO_SIGNING_VERIFY: ErrorCode := -0x2000 - 12
  const CRYPTO_SIGNING_CHAIN: ErrorCode := -0x2000 - 13
  const JWT_JSON_PARSE: ErrorCode := -0x3000 - 2
  const JWT_MISSING_FIELD: ErrorCode := -0x3000 - 4
  const JWT_INVALID_FIELD: ErrorCode := -0x3000 - 5
  const X509_PRIVATE_KEY: ErrorCode := -0x3000 - 10
  const BASE64_ERROR: ErrorCode := -0x3000 - 13
  const BCRYPT_KEY_ERROR: ErrorCode := -0x4000 - 4
  const POLICY_MISMATCH: ErrorCode := -0x5000
  const GENERAL_ERROR: ErrorCode := -0x6000
  const UNKNOWN_ERROR: ErrorCode := -0x7000

  /** The platform's long: 32 bits on Windows, 64 on Linux. */
  datatype LongWidth = Bits32 | Bits64 {
    /** Its values are below this. */
    function Limit(): (n: nat)
      ensures n > 0
    {
      if Bits32? then 0x8000_0000 else 0x8000_0000_0000_0000
    }
  }

  /** A size cast to a long. */
  function AsLong(size: nat, width: LongWidth): (n: int)
    ensures 0 <= n + width.Limit() && n < width.Limit()
    ensures size < width.Limit() ==> n == size
    ensures width.Limit() <= size < 2 * width.Limit() ==> n + 2 * width.Limit() == size
  {
    if width.Bits32? then
      Signed(size % 0x1_0000_0000, 0x8000_0000)
    else
      Signed(size % 0x1_0000_0000_0000_0000, 0x8000_0000_0000_0000)
  }

  /** A word below twice the limit, read as a signed one. */
  function Signed(word: int, limit: int): int {
    if word < limit then word else word - 2 * limit
  }

  /** What a throw looks like to the handlers of the two APIs. */
  datatype Failure =
    | JwtFailure(code: ErrorCode)  // carries its own code
    | InvalidArgument              // a header field with an unknown value
    | OtherException

  /** The code the handlers at the API boundary return. */
  function CodeOf(f: Failure): ErrorCode {
    match f
    case JwtFailure(code) => code
    case InvalidArgument => JWT_INVALID_FIELD
    case OtherException => UNKNOWN_ERROR
  }
}
