/**
 * Shared vocabulary of the one-time-password library: machine integer
 * widths, the status codes of common.h, a result type that separates a
 * value from an error status, and the HMAC primitive, which the library
 * takes from an external crypto package and which is therefore a parameter
 * of this model.
 */
module Common {

  const TWO_32: int := 0x1_0000_0000
  const TWO_64: int := 0x1_0000_0000_0000_0000

  type byte = x: int | 0 <= x < 256
  type uint32 = x: int | 0 <= x < 0x1_0000_0000
  type uint64 = x: int | 0 <= x < 0x1_0000_0000_0000_0000
  /** `time_t` on the platforms the library targets: a signed 64-bit integer. */
  type int64 = x: int | -0x8000_0000_0000_0000 <= x < 0x8000_0000_0000_0000

  /** Reduction into `uint64`, as C does for unsigned 64-bit arithmetic. */
  function Wrap64(x: int): (r: uint64)
    ensures 0 <= x < TWO_64 ==> r == x
    ensures -TWO_64 <= x < 0 ==> r == x + TWO_64
    ensures TWO_64 <= x < 2 * TWO_64 ==> r == x - TWO_64
  {
    x % TWO_64
  }

  /** The `otp_status` enumeration. */
  datatype Status = OtpOk | InvalidDigitNumber | PrintfError | InvalidOtp | InvalidHmacAlgorithm
  {
    /** The integer value of the C enumerator. */
    function Code(): (c: int)
      ensures -4 <= c <= 0
      ensures c == 0 <==> this == OtpOk
    {
      match this
      case OtpOk => 0
      case InvalidDigitNumber => -1
      case PrintfError => -2
      case InvalidOtp => -3
      case InvalidHmacAlgorithm => -4
    }
  }

  /** Distinct statuses have distinct codes, and every error code is negative. */
  lemma StatusCodesDistinct(s: Status, t: Status)
    ensures s != t ==> s.Code() != t.Code()
    ensures s != OtpOk ==> s.Code() < 0
  {
  }

  /**
   * The C functions return either a non-negative value or a negative status
   * in one `int`; here a success value and an error status are kept apart.
   */
  datatype Result<T> = Success(value: T) | Failure(status: Status)

  datatype Option<T> = None | Some(value: T)

  /**
   * The `otp_hmac_algorithm` selector. Its declaration is not part of this
   * model; `Unrecognised` stands for any value that is none of the three
   * enumerators the library dispatches on.
   */
  datatype HmacAlgorithm = HmacSha1 | HmacSha256 | HmacSha512 | Unrecognised(code: int)
  {
    predicate Supported() {
      !Unrecognised?
    }
  }

  /** Output size in bytes of the hash behind each supported HMAC. */
  function DigestSize(alg: HmacAlgorithm): (n: nat)
    requires alg.Supported()
    ensures n == 20 || n == 32 || n == 64
  {
    match alg
    case HmacSha1 => 20
    case HmacSha256 => 32
    case HmacSha512 => 64
  }

  /** A digest of the right size for every supported algorithm; used only as a witness. */
  function ZeroDigest(alg: HmacAlgorithm, key: seq<byte>, message: seq<byte>): seq<byte>
  {
    if alg.Supported() then seq(DigestSize(alg), _ => 0) else []
  }

  /**
   * HMAC(alg, key, message). The hash functions are outside this model: any
   * function that yields a digest of the right length for each supported
   * algorithm may stand for them.
   */
  type Hmac = f: (HmacAlgorithm, seq<byte>, seq<byte>) -> seq<byte>
    | forall alg: HmacAlgorithm, key: seq<byte>, message: seq<byte> :: alg.Supported() ==> |f(alg, key, message)| == DigestSize(alg)
    witness ZeroDigest
}
