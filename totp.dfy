/**
 * TOTP (RFC 6238) as totp.c implements it: the time is turned into a
 * counter of elapsed time steps, and the counter is handed to the HOTP
 * generator; the validator searches a window centred on that counter.
 */
module Totp {
  import opened Common
  import opened Numeric
  import opened Window
  import opened Hotp

  /** `TOTP_DEFAULT_TIME_STEP`: the step used when the caller passes 0. */
  const TOTP_DEFAULT_TIME_STEP: uint32 := 30

  /** `TOTP_DEFAULT_START_TIME`: the recommended Unix time at which steps start. */
  const TOTP_DEFAULT_START_TIME: int64 := 0

  /** The time step in force: the caller's, or the default when the caller passes 0. */
  function EffectiveTimeStep(timeStepSize: uint32): (step: uint32)
    ensures step > 0
    ensures timeStepSize == 0 ==> step == TOTP_DEFAULT_TIME_STEP
    ensures timeStepSize != 0 ==> step == timeStepSize
  {
    if timeStepSize == 0 then TOTP_DEFAULT_TIME_STEP else timeStepSize
  }

  /** C's `/` on signed integers: the quotient rounded toward zero. */
  function TruncDiv(a: int, b: int): int
    requires b > 0
  {
    if a >= 0 then a / b else -((-a) / b)
  }

  /**
   * The quotient is rounded toward zero: q * b lies between 0 and a, less
   * than one divisor away from a.
   */
  lemma TruncDivTowardZero(a: int, b: int)
    requires b > 0
    ensures a >= 0 ==> TruncDiv(a, b) * b <= a < TruncDiv(a, b) * b + b
    ensures a < 0 ==> TruncDiv(a, b) * b - b < a <= TruncDiv(a, b) * b
  {
    var q := (if a >= 0 then a else -a) / b;
    assert (if a >= 0 then a else -a) == q * b + (if a >= 0 then a else -a) % b;
    assert -q * b == -(q * b);
  }

  /** `now - start_offset` is computed in `time_t` and must not overflow it. */
  predicate TimeInRange(now: int64, startOffset: int64) {
    -0x8000_0000_0000_0000 <= now - startOffset < 0x8000_0000_0000_0000
  }

  /**
   * `nts = (now - start_offset) / time_step_size`: a signed division
   * rounded toward zero, stored in a `uint64`.
   */
  function TimeCounter(now: int64, timeStepSize: uint32, startOffset: int64): (nts: uint64)
    requires TimeInRange(now, startOffset)
    ensures now >= startOffset ==> nts == (now - startOffset) / EffectiveTimeStep(timeStepSize)
  {
    DivBounds(if now >= startOffset then now - startOffset else 0, EffectiveTimeStep(timeStepSize));
    Wrap64(TruncDiv(now - startOffset, EffectiveTimeStep(timeStepSize)))
  }

  /** A time in the k-th step after the start offset is given counter k. */
  lemma TimeCounterBucket(now: int64, timeStepSize: uint32, startOffset: int64, k: nat)
    requires TimeInRange(now, startOffset)
    requires startOffset + k * EffectiveTimeStep(timeStepSize) <= now
    requires now < startOffset + (k + 1) * EffectiveTimeStep(timeStepSize)
    ensures TimeCounter(now, timeStepSize, startOffset) == k
  {
    var step: int := EffectiveTimeStep(timeStepSize);
    var a := now - startOffset;
    assert (k + 1) * step == k * step + step;
    DivModUnique(a, step, k, a - k * step);
    assert TruncDiv(a, step) == k;
    assert k <= k * step by {
      MulMonotone(step, 1, k);
    }
  }

  /**
   * Before the start offset the quotient is rounded toward zero: less than
   * one step early still gives counter 0, and earlier times wrap around to
   * the top of the 64-bit range.
   */
  lemma TimeCounterBeforeStart(now: int64, timeStepSize: uint32, startOffset: int64)
    requires TimeInRange(now, startOffset)
    requires now < startOffset
    ensures now > startOffset - EffectiveTimeStep(timeStepSize) ==> TimeCounter(now, timeStepSize, startOffset) == 0
    ensures now <= startOffset - EffectiveTimeStep(timeStepSize) ==>
      TimeCounter(now, timeStepSize, startOffset) == TWO_64 - (startOffset - now) / EffectiveTimeStep(timeStepSize)
  {
    var step: int := EffectiveTimeStep(timeStepSize);
    var d := startOffset - now;
    DivBounds(d, step);
    assert TruncDiv(now - startOffset, step) == -(d / step);
  }

  /** What `totp_generate` produces: the HOTP code of the time counter, without check digit. */
  function TotpGeneration(mac: Hmac, secret: seq<byte>, now: int64, timeStepSize: uint32, startOffset: int64,
                          digits: uint32, alg: HmacAlgorithm): (r: Result<seq<char>>)
    requires TimeInRange(now, startOffset)
    ensures r.Success? <==> alg.Supported() && 1 <= digits <= 8
    ensures r.Success? ==> |r.value| == digits
  {
    Generate(mac, secret, TimeCounter(now, timeStepSize, startOffset), digits, false, DYNAMIC_TRUNCATION, alg)
  }

  /**
   * Within the k-th time step the code is the HOTP code of counter k,
   * whatever the time within the step.
   */
  lemma TotpGenerationWithinStep(mac: Hmac, secret: seq<byte>, now: int64, timeStepSize: uint32,
                                 startOffset: int64, digits: uint32, alg: HmacAlgorithm, k: nat)
    requires TimeInRange(now, startOffset)
    requires startOffset + k * EffectiveTimeStep(timeStepSize) <= now
    requires now < startOffset + (k + 1) * EffectiveTimeStep(timeStepSize)
    ensures TotpGeneration(mac, secret, now, timeStepSize, startOffset, digits, alg)
      == Generate(mac, secret, k, digits, false, DYNAMIC_TRUNCATION, alg)
  {
    TimeCounterBucket(now, timeStepSize, startOffset, k);
  }

  /**
   * `totp_generate`: the code for the current time step is written into
   * `output` as `hotp_generate` writes it.
   */
  method TotpGenerate(mac: Hmac, secret: seq<byte>, now: int64, timeStepSize: uint32, startOffset: int64,
                      digits: uint32, alg: HmacAlgorithm, output: array<char>) returns (status: Status)
    requires TimeInRange(now, startOffset)
    requires 1 <= digits <= 8 ==> output.Length > digits
    modifies output
    ensures match TotpGeneration(mac, secret, now, timeStepSize, startOffset, digits, alg)
      case Success(code) =>
        status == OtpOk && output[..|code| + 1] == code + ['\0'] &&
        output[|code| + 1..] == old(output[|code| + 1..])
      case Failure(e) =>
        status == e && output[..] == old(output[..])
  {
    var step := timeStepSize;
    if step == 0 {
      step := TOTP_DEFAULT_TIME_STEP;
    }
    var nts := Wrap64(TruncDiv(now - startOffset, step));
    status := HotpGenerate(mac, secret, nts, digits, false, DYNAMIC_TRUNCATION, alg, output);
  }

  /** A caller's optional out-parameter: a cell the callee may write, or `null`. */
  class Ref<T> {
    var value: T

    constructor (v: T)
      ensures value == v
    {
      value := v;
    }
  }

  /**
   * The search of `totp_validate` around the time counter nts: the signed
   * distance of the first matching code, in the order
   * 0, +1, -1, +2, -2, ..., +window, -window.
   */
  function TotpScan(mac: Hmac, secret: seq<byte>, nts: uint64, window: nat, alg: HmacAlgorithm, otp: seq<char>): (r: Result<int>)
    ensures r.Success? ==> Abs(r.value) <= window
  {
    CentredScan(CodesFrom(mac, secret, nts, alg, otp), otp, window, 0)
  }

  /**
   * One pass of the loop of `totp_validate`: the code for counter
   * nts + iter, then, from the second pass on, the code for nts - iter
   * (both modulo 2^64), each compared with the candidate. The result is the
   * generator's error, the signed distance of a match, or `None`;
   * `generated` counts the codes computed, one or two.
   */
  method TotpStep(mac: Hmac, secret: seq<byte>, nts: uint64, iter: nat, digits: uint32,
                  alg: HmacAlgorithm, otp: seq<char>, tmp: array<char>) returns (r: Result<Option<int>>, ghost generated: nat)
    requires digits == |otp| % TWO_32 && tmp.Length == 10
    modifies tmp
    ensures r == CentredStep(CodesFrom(mac, secret, nts, alg, otp), otp, iter)
    ensures 1 <= generated <= if iter == 0 then 1 else 2
  {
    CodesFromAt(mac, secret, nts, alg, otp, iter);
    var probe := Probe(mac, secret, Wrap64(nts + iter), digits, alg, otp, tmp);
    generated := 1;
    if probe.Failure? {
      return Failure(probe.status), generated;
    }
    if probe.value {
      return Success(Some(iter)), generated;
    }
    if iter == 0 {
      return Success(None), generated;
    }
    r := BackwardProbe(mac, secret, nts, iter, digits, alg, otp, tmp);
    generated := 2;
  }

  /**
   * The second half of a pass: the code for nts - iter (modulo 2^64)
   * compared with the candidate. Its error exit is never taken, as the
   * generator has just succeeded for nts + iter and its errors do not
   * depend on the counter.
   */
  method BackwardProbe(mac: Hmac, secret: seq<byte>, nts: uint64, iter: nat, digits: uint32,
                       alg: HmacAlgorithm, otp: seq<char>, tmp: array<char>) returns (r: Result<Option<int>>)
    requires digits == |otp| % TWO_32 && tmp.Length == 10
    modifies tmp
    ensures match Behind(CodesFrom(mac, secret, nts, alg, otp), iter)
      case Failure(e) => r == Failure(e)
      case Success(behind) => r == if behind == otp then Success(Some(-(iter as int))) else Success(None)
  {
    var k := -(iter as int);
    CodesFromAt(mac, secret, nts, alg, otp, k);
    var probe := Probe(mac, secret, Wrap64(nts + k), digits, alg, otp, tmp);
    if probe.Failure? {
      return Failure(probe.status);
    }
    if probe.value {
      return Success(Some(-(iter as int)));
    }
    return Success(None);
  }

  /**
   * `totp_validate`. On a match at signed distance pos it returns |pos|,
   * and stores pos in `otpPos` and the matching counter in `otpCounter`
   * when they are given; on an error or when nothing matches it returns
   * the status and stores nothing.
   */
  method TotpValidate(mac: Hmac, secret: seq<byte>, now: int64, timeStepSize: uint32, startOffset: int64,
                      window: uint64, otpPos: Ref?<int>, otpCounter: Ref?<uint64>,
                      alg: HmacAlgorithm, otp: seq<char>) returns (result: Result<nat>)
    requires TimeInRange(now, startOffset)
    requires window < 0x8000_0000
    modifies otpPos, otpCounter
    ensures match TotpScan(mac, secret, TimeCounter(now, timeStepSize, startOffset), window, alg, otp)
      case Success(pos) =>
        result == Success(Abs(pos)) &&
        (otpPos != null ==> otpPos.value == pos) &&
        (otpCounter != null ==> otpCounter.value == Wrap64(TimeCounter(now, timeStepSize, startOffset) + pos))
      case Failure(e) =>
        result == Failure(e) &&
        (otpPos != null ==> otpPos.value == old(otpPos.value)) &&
        (otpCounter != null ==> otpCounter.value == old(otpCounter.value))
  {
    var step := timeStepSize;
    if step == 0 {
      step := TOTP_DEFAULT_TIME_STEP;
    }
    var nts := Wrap64(TruncDiv(now - startOffset, step));
    assert nts == TimeCounter(now, timeStepSize, startOffset);
    result := CentredSearch(mac, secret, nts, window, otpPos, otpCounter, alg, otp);
  }

  /**
   * The stores of `totp_validate` into the out-parameters around its loop:
   * on a match the signed distance and the matching counter are written to
   * those that are given.
   */
  method CentredSearch(mac: Hmac, secret: seq<byte>, nts: uint64, window: nat,
                       otpPos: Ref?<int>, otpCounter: Ref?<uint64>,
                       alg: HmacAlgorithm, otp: seq<char>) returns (result: Result<nat>)
    requires window < 0x8000_0000
    modifies otpPos, otpCounter
    ensures match TotpScan(mac, secret, nts, window, alg, otp)
      case Success(pos) =>
        result == Success(Abs(pos)) &&
        (otpPos != null ==> otpPos.value == pos) &&
        (otpCounter != null ==> otpCounter.value == Wrap64(nts + pos))
      case Failure(e) =>
        result == Failure(e) &&
        (otpPos != null ==> otpPos.value == old(otpPos.value)) &&
        (otpCounter != null ==> otpCounter.value == old(otpCounter.value))
  {
    var found, _ := CentredLoop(mac, secret, nts, window, alg, otp);
    if found.Failure? {
      return Failure(found.status);
    }
    var pos := found.value;
    if otpCounter != null {
      otpCounter.value := Wrap64(nts + pos);
    }
    if otpPos != null {
      otpPos.value := pos;
    }
    return Success(Abs(pos));
  }

  /**
   * The loop of `totp_validate` around the counter nts: the signed distance
   * of the first match, the generator's error, or `InvalidOtp`. At most
   * 2 * window + 1 codes are computed (`generated`).
   */
  method CentredLoop(mac: Hmac, secret: seq<byte>, nts: uint64, window: nat,
                     alg: HmacAlgorithm, otp: seq<char>) returns (result: Result<int>, ghost generated: nat)
    requires window < 0x8000_0000
    ensures result == TotpScan(mac, secret, nts, window, alg, otp)
    ensures generated <= 2 * window + 1
  {
    generated := 0;
    ghost var codes := CodesFrom(mac, secret, nts, alg, otp);
    var iter: nat := 0;
    var tmp := new char[10];
    var digits: uint32 := |otp| % TWO_32;
    while true
      invariant iter <= window
      invariant CentredScan(codes, otp, window, iter) == CentredScan(codes, otp, window, 0)
      invariant iter == 0 ==> generated == 0
      invariant iter > 0 ==> generated < 2 * iter
      decreases window - iter
    {
      var outcome, probes := TotpStep(mac, secret, nts, iter, digits, alg, otp, tmp);
      generated := generated + probes;
      if outcome.Failure? {
        return Failure(outcome.status), generated;
      }
      if outcome.value.Some? {
        return Success(outcome.value.value), generated;
      }
      if iter == window {
        break;
      }
      iter := iter + 1;
    }
    return Failure(InvalidOtp), generated;
  }

  /**
   * `totp_validate` stops at signed distance pos exactly when the code for
   * nts + pos is the candidate and every distance tried before it in the
   * order 0, +1, -1, +2, -2, ... yields another code: all distances of
   * smaller size, and +|pos| when pos is backward.
   */
  lemma TotpValidationFirstMatch(mac: Hmac, secret: seq<byte>, nts: uint64, window: nat,
                                 alg: HmacAlgorithm, otp: seq<char>, pos: int)
    ensures TotpScan(mac, secret, nts, window, alg, otp) == Success(pos) <==>
      Abs(pos) <= window && CodeAt(mac, secret, nts, pos, alg, otp) == Success(otp) &&
      (forall j :: -(Abs(pos) as int) < j < Abs(pos) ==> Rejects(CodeAt(mac, secret, nts, j, alg, otp), otp)) &&
      (pos < 0 ==> Rejects(CodeAt(mac, secret, nts, -pos, alg, otp), otp))
  {
    CentredScanFirstMatchFromStart(CodesFrom(mac, secret, nts, alg, otp), otp, window, pos);
    CodesFromApply(mac, secret, nts, alg, otp);
  }

  /**
   * `totp_validate` reports `InvalidOtp` exactly when every counter from
   * nts - window to nts + window yields a code other than the candidate.
   */
  lemma TotpValidationNoMatch(mac: Hmac, secret: seq<byte>, nts: uint64, window: nat,
                              alg: HmacAlgorithm, otp: seq<char>)
    ensures TotpScan(mac, secret, nts, window, alg, otp) == Failure(InvalidOtp) <==>
      forall j :: -(window as int) <= j <= window ==> Rejects(CodeAt(mac, secret, nts, j, alg, otp), otp)
  {
    CodesFailUniformly(mac, secret, nts, alg, otp);
    CentredScanNoMatch(CodesFrom(mac, secret, nts, alg, otp), otp, window, 0);
    CodesFromApply(mac, secret, nts, alg, otp);
  }

  /**
   * A generator error is what `totp_validate` returns, coming from the
   * first code it computes; without one the outcome is a match or
   * `InvalidOtp`.
   */
  lemma TotpValidationError(mac: Hmac, secret: seq<byte>, nts: uint64, window: nat,
                            alg: HmacAlgorithm, otp: seq<char>)
    ensures CodeAt(mac, secret, nts, 0, alg, otp).Failure? ==>
      TotpScan(mac, secret, nts, window, alg, otp) == Failure(CodeAt(mac, secret, nts, 0, alg, otp).status) &&
      CodeAt(mac, secret, nts, 0, alg, otp).status in {InvalidHmacAlgorithm, InvalidDigitNumber}
    ensures CodeAt(mac, secret, nts, 0, alg, otp).Success? ==>
      TotpScan(mac, secret, nts, window, alg, otp).Success? ||
      TotpScan(mac, secret, nts, window, alg, otp) == Failure(InvalidOtp)
  {
    var codes := CodesFrom(mac, secret, nts, alg, otp);
    CodesFailUniformly(mac, secret, nts, alg, otp);
    CentredScanError(codes, otp, window, 0);
    CodesFromAt(mac, secret, nts, alg, otp, 0);
  }

  /**
   * The code generated for counter nts (no check digit, dynamic
   * truncation) is accepted by the search around nts at distance 0.
   */
  lemma TotpValidatesOwnCode(mac: Hmac, secret: seq<byte>, nts: uint64, window: nat, digits: uint32,
                             alg: HmacAlgorithm, code: seq<char>)
    requires Generate(mac, secret, nts, digits, false, DYNAMIC_TRUNCATION, alg) == Success(code)
    ensures TotpScan(mac, secret, nts, window, alg, code) == Success(0)
  {
    ValidatorFindsOwnCode(mac, secret, nts, digits, alg, code);
    CodesFromAt(mac, secret, nts, alg, code, 0);
    CentredScanMatchAtZero(CodesFrom(mac, secret, nts, alg, code), code, window);
  }

  /**
   * Self-consistency: the code `totp_generate` produces at a given time is
   * accepted by `totp_validate` at the same time, at distance 0, so the
   * matching counter it reports is the time counter itself.
   */
  lemma TotpRoundTrip(mac: Hmac, secret: seq<byte>, now: int64, timeStepSize: uint32, startOffset: int64,
                      window: nat, digits: uint32, alg: HmacAlgorithm, code: seq<char>)
    requires TimeInRange(now, startOffset)
    requires TotpGeneration(mac, secret, now, timeStepSize, startOffset, digits, alg) == Success(code)
    ensures TotpScan(mac, secret, TimeCounter(now, timeStepSize, startOffset), window, alg, code) == Success(0)
  {
    TotpValidatesOwnCode(mac, secret, TimeCounter(now, timeStepSize, startOffset), window, digits, alg, code);
  }

  /**
   * Clock skew: a code generated for a counter up to `window` steps before
   * or after nts is accepted, at a distance no larger than its own.
   */
  lemma TotpAcceptsSkew(mac: Hmac, secret: seq<byte>, nts: uint64, window: nat,
                        alg: HmacAlgorithm, code: seq<char>, d: int)
    requires Abs(d) <= window
    requires CodeAt(mac, secret, nts, d, alg, code) == Success(code)
    ensures TotpScan(mac, secret, nts, window, alg, code).Success?
    ensures Abs(TotpScan(mac, secret, nts, window, alg, code).value) <= Abs(d)
  {
    var scan := TotpScan(mac, secret, nts, window, alg, code);
    TotpValidationNoMatch(mac, secret, nts, window, alg, code);
    TotpValidationError(mac, secret, nts, window, alg, code);
    GenerateFailureIgnoresCounter(mac, secret, secret, Wrap64(nts + 0), Wrap64(nts + d),
                                  |code| % TWO_32, false, DYNAMIC_TRUNCATION, alg);
    assert scan.Success?;
    TotpValidationFirstMatch(mac, secret, nts, window, alg, code, scan.value);
  }
}
