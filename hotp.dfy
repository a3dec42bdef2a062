/**
 * HOTP (RFC 4226, sections 5.2 and 5.3) as hotp.c implements it: the
 * generator `hotp_generate`, which writes a zero-padded decimal code into a
 * caller's buffer, and the look-ahead validator `hotp_validate`.
 */
module Hotp {
  import opened Common
  import opened Numeric
  import opened Decimal
  import opened Checksum
  import opened Window

  /**
   * `HOTP_DYNAMIC_TRUNCATION`. Its definition is not part of this model; it
   * is taken to be SIZE_MAX. All the model relies on is that it is at least
   * 60, the largest digest size less four, so it always selects dynamic
   * truncation.
   */
  const DYNAMIC_TRUNCATION: uint64 := 0xFFFF_FFFF_FFFF_FFFF

  /** `HOTP_LENGTH(digits, add_checksum)`: the number of characters of a code. */
  function OtpLength(digits: nat, addChecksum: bool): (n: nat)
    ensures !addChecksum ==> n == digits
    ensures addChecksum ==> n == digits + 1
  {
    if addChecksum then digits + 1 else digits
  }

  /** The 8-byte HMAC message: the moving factor, high-order byte first. */
  function CounterMessage(movingFactor: uint64): (m: seq<byte>)
    ensures |m| == 8
  {
    var c := movingFactor;
    [c / 0x100_0000_0000_0000 % 256, c / 0x1_0000_0000_0000 % 256, c / 0x100_0000_0000 % 256, c / 0x1_0000_0000 % 256,
     c / 0x100_0000 % 256, c / 0x1_0000 % 256, c / 0x100 % 256, c % 256]
  }

  /** Byte i of the message is `(moving_factor >> 8*(7-i)) & 0xFF`, byte i of the 8-byte big-endian encoding. */
  lemma CounterMessageAt(movingFactor: uint64, i: nat)
    requires i < 8
    ensures CounterMessage(movingFactor)[i] == movingFactor / Pow256(7 - i) % 256
    ensures CounterMessage(movingFactor)[i] == BigEndianBytes(movingFactor, 8)[i]
  {
    BigEndianBytesAt(movingFactor, 8, i);
    assert Pow256(0) == 1 && Pow256(1) == 0x100 && Pow256(2) == 0x1_0000 && Pow256(3) == 0x100_0000;
    assert Pow256(4) == 0x1_0000_0000 && Pow256(5) == 0x100_0000_0000;
    assert Pow256(6) == 0x1_0000_0000_0000 && Pow256(7) == 0x100_0000_0000_0000;
  }

  /** The message is the 8-byte big-endian encoding of the moving factor. */
  lemma CounterMessageIsBigEndian(movingFactor: uint64)
    ensures CounterMessage(movingFactor) == BigEndianBytes(movingFactor, 8)
  {
    forall i | 0 <= i < 8
      ensures CounterMessage(movingFactor)[i] == BigEndianBytes(movingFactor, 8)[i]
    {
      CounterMessageAt(movingFactor, i);
    }
  }

  /** Decoding the message high-order byte first gives back the moving factor. */
  lemma CounterMessageRoundTrip(movingFactor: uint64)
    ensures BigEndian(CounterMessage(movingFactor)) == movingFactor
  {
    Pow256Eight();
    BigEndianBytesRoundTripExact(movingFactor, 8);
    CounterMessageIsBigEndian(movingFactor);
  }

  /**
   * Where the four bytes of the dynamic binary code start: the requested
   * offset when it is below `|hs| - 4`, otherwise the low four bits of the
   * digest's last byte. Either way the four bytes lie inside the digest.
   */
  function TruncationOffset(hs: seq<byte>, truncationOffset: uint64): (offset: nat)
    requires |hs| >= 20
    ensures offset + 3 < |hs|
    ensures truncationOffset < |hs| - 4 ==> offset == truncationOffset
    ensures truncationOffset >= |hs| - 4 ==> offset == hs[|hs| - 1] % 16 <= 15
  {
    if truncationOffset < |hs| - 4 then truncationOffset else hs[|hs| - 1] % 16
  }

  /** The sentinel `HOTP_DYNAMIC_TRUNCATION` always yields the dynamic offset. */
  lemma DynamicTruncationIsDynamic(hs: seq<byte>)
    requires 20 <= |hs| <= 64
    ensures TruncationOffset(hs, DYNAMIC_TRUNCATION) == hs[|hs| - 1] % 16
    ensures TruncationOffset(hs, DYNAMIC_TRUNCATION) <= 15
  {
  }

  /**
   * The dynamic binary code S: four digest bytes from `offset` on, read
   * high-order first, with the top bit of the first one cleared, computed
   * with the shifts and masks of hotp.c (the ORed fields do not overlap, so
   * OR is addition here).
   */
  function TruncatedValue(hs: seq<byte>, offset: nat): (s: nat)
    requires offset + 3 < |hs|
    ensures s < 0x8000_0000
  {
    (hs[offset] % 128) as int * 0x100_0000 + hs[offset + 1] as int * 0x1_0000 + hs[offset + 2] as int * 0x100 + hs[offset + 3] as int
  }

  /**
   * S is the big-endian reading of the four bytes at `offset` with the top
   * bit of the first cleared: a 31-bit number, as RFC 4226 requires.
   */
  lemma TruncatedValueIsBigEndian(hs: seq<byte>, offset: nat)
    requires offset + 3 < |hs|
    ensures TruncatedValue(hs, offset) == BigEndian([hs[offset] % 128] + hs[offset + 1 .. offset + 4])
  {
    var b0: int, b1: int, b2: int, b3: int := hs[offset] % 128, hs[offset + 1], hs[offset + 2], hs[offset + 3];
    assert [hs[offset] % 128] + hs[offset + 1 .. offset + 4] == [b0, b1, b2, b3];
    BigEndianFour(b0, b1, b2, b3);
  }

  /**
   * The number the code spells: the low `digits` decimal digits of S,
   * followed, when a check digit is asked for, by their check digit.
   */
  function HotpValue(hs: seq<byte>, truncationOffset: uint64, digits: nat, addChecksum: bool): (v: nat)
    requires |hs| >= 20 && 1 <= digits <= 8
    ensures v < Pow10(OtpLength(digits, addChecksum))
  {
    var s := LowDigits(TruncatedValue(hs, TruncationOffset(hs, truncationOffset)), digits);
    if addChecksum then AppendCheckDigit(s, digits) else s
  }

  /**
   * The value is S modulo 10^digits; with a check digit, that number
   * shifted left one place, its check digit appended, the whole passing
   * the Luhn test.
   */
  lemma HotpValueDigits(hs: seq<byte>, truncationOffset: uint64, digits: nat)
    requires |hs| >= 20 && 1 <= digits <= 8
    ensures HotpValue(hs, truncationOffset, digits, false) ==
      TruncatedValue(hs, TruncationOffset(hs, truncationOffset)) % Pow10(digits)
    ensures HotpValue(hs, truncationOffset, digits, true) / 10 ==
      TruncatedValue(hs, TruncationOffset(hs, truncationOffset)) % Pow10(digits)
    ensures HotpValue(hs, truncationOffset, digits, true) % 10 ==
      CheckDigit(TruncatedValue(hs, TruncationOffset(hs, truncationOffset)) % Pow10(digits), digits)
    ensures LuhnSum(HotpValue(hs, truncationOffset, digits, true), digits + 1, false) % 10 == 0
  {
    var s := TruncatedValue(hs, TruncationOffset(hs, truncationOffset));
    LowDigitsIsMod(s, digits);
    AppendCheckDigitVerifies(s % Pow10(digits), digits);
  }

  /**
   * The code `hotp_generate` derives from the digest hs, or the status it
   * returns when the number of digits is not supported.
   */
  function CodeOfDigest(hs: seq<byte>, truncationOffset: uint64, digits: uint32, addChecksum: bool): (r: Result<seq<char>>)
    requires |hs| >= 20
    ensures r.Success? <==> 1 <= digits <= 8
    ensures r.Failure? ==> r.status == InvalidDigitNumber
    ensures r.Success? ==>
      |r.value| == OtpLength(digits, addChecksum) && IsDecimal(r.value) &&
      DecimalValue(r.value) == HotpValue(hs, truncationOffset, digits, addChecksum)
  {
    if !(1 <= digits <= 8) then Failure(InvalidDigitNumber)
    else
      var v := HotpValue(hs, truncationOffset, digits, addChecksum);
      var len := OtpLength(digits, addChecksum);
      RenderLength(v, len);
      RenderValue(v, len);
      Success(Render(v, len))
  }

  /**
   * What `hotp_generate` produces: the code, or the status it returns.
   * The algorithm is checked before the number of digits.
   */
  function Generate(mac: Hmac, secret: seq<byte>, movingFactor: uint64, digits: uint32,
                    addChecksum: bool, truncationOffset: uint64, alg: HmacAlgorithm): (r: Result<seq<char>>)
    ensures !alg.Supported() ==> r == Failure(InvalidHmacAlgorithm)
    ensures alg.Supported() && !(1 <= digits <= 8) ==> r == Failure(InvalidDigitNumber)
    ensures r.Success? <==> alg.Supported() && 1 <= digits <= 8
    ensures r.Success? ==>
      |r.value| == OtpLength(digits, addChecksum) && IsDecimal(r.value) &&
      DecimalValue(r.value) == HotpValue(mac(alg, secret, CounterMessage(movingFactor)), truncationOffset, digits, addChecksum)
  {
    if !alg.Supported() then Failure(InvalidHmacAlgorithm)
    else
      var hs := mac(alg, secret, CounterMessage(movingFactor));
      assert |hs| == DigestSize(alg);
      CodeOfDigest(hs, truncationOffset, digits, addChecksum)
  }

  /** Whether and how generation fails does not depend on the secret or the counter. */
  lemma GenerateFailureIgnoresCounter(mac: Hmac, s1: seq<byte>, s2: seq<byte>, c1: uint64, c2: uint64, digits: uint32,
                                      addChecksum: bool, truncationOffset: uint64, alg: HmacAlgorithm)
    ensures Generate(mac, s1, c1, digits, addChecksum, truncationOffset, alg).Failure? ==>
      Generate(mac, s2, c2, digits, addChecksum, truncationOffset, alg)
      == Generate(mac, s1, c1, digits, addChecksum, truncationOffset, alg)
  {
  }

  /**
   * `hotp_generate`. On success the code and a terminating NUL are written
   * at the start of `output` and `OtpOk` is returned; on an error nothing
   * is written. `output` must have room for the code and the NUL.
   */
  method HotpGenerate(mac: Hmac, secret: seq<byte>, movingFactor: uint64, digits: uint32,
                      addChecksum: bool, truncationOffset: uint64, alg: HmacAlgorithm,
                      output: array<char>) returns (status: Status)
    requires 1 <= digits <= 8 ==> output.Length > OtpLength(digits, addChecksum)
    modifies output
    ensures match Generate(mac, secret, movingFactor, digits, addChecksum, truncationOffset, alg)
      case Success(code) =>
        status == OtpOk && output[..|code| + 1] == code + ['\0'] &&
        output[|code| + 1..] == old(output[|code| + 1..])
      case Failure(e) =>
        status == e && output[..] == old(output[..])
  {
    var counter := EncodeCounter(movingFactor);

    var hssize: nat;
    match alg {
      case HmacSha1 => hssize := 20;
      case HmacSha512 => hssize := 64;
      case HmacSha256 => hssize := 32;
      case Unrecognised(_) => return InvalidHmacAlgorithm;
    }
    var hs := mac(alg, secret, counter[..]);
    assert hs == mac(alg, secret, CounterMessage(movingFactor)) && |hs| == hssize;
    status := WriteCode(hs, truncationOffset, digits, addChecksum, output);
  }

  /**
   * The part of `hotp_generate` after the HMAC: dynamic truncation,
   * reduction to `digits` digits, the optional check digit, and printing.
   */
  method WriteCode(hs: seq<byte>, truncationOffset: uint64, digits: uint32, addChecksum: bool,
                   output: array<char>) returns (status: Status)
    requires |hs| >= 20
    requires 1 <= digits <= 8 ==> output.Length > OtpLength(digits, addChecksum)
    modifies output
    ensures match CodeOfDigest(hs, truncationOffset, digits, addChecksum)
      case Success(code) =>
        status == OtpOk && output[..|code| + 1] == code + ['\0'] &&
        output[|code| + 1..] == old(output[|code| + 1..])
      case Failure(e) =>
        status == e && output[..] == old(output[..])
  {
    var offset: nat := hs[|hs| - 1] % 16;
    if truncationOffset < |hs| - 4 {
      offset := truncationOffset;
    }
    var s: nat := (hs[offset] as int % 128) * 0x100_0000 + (hs[offset + 1] as int) * 0x1_0000
                  + (hs[offset + 2] as int) * 0x100 + hs[offset + 3] as int;
    assert s == TruncatedValue(hs, TruncationOffset(hs, truncationOffset));

    var reduced := ReduceToDigits(s, digits);
    if reduced.Failure? {
      return reduced.status;
    }
    s := reduced.value;
    assert s == LowDigits(TruncatedValue(hs, TruncationOffset(hs, truncationOffset)), digits) by {
      LowDigitsIsMod(TruncatedValue(hs, TruncationOffset(hs, truncationOffset)), digits);
    }

    // hotp.c reuses `digits` for the full code length from here on.
    var length: uint32 := digits;
    if addChecksum {
      length := OtpLength(digits, addChecksum);
      var check := ChecksumCalculation(s, length);
      CheckDigitLeadingZero(s, digits);
      s := s * 10 + check;
    }
    assert s == HotpValue(hs, truncationOffset, digits, addChecksum);
    ghost var code := Render(s, length);
    assert CodeOfDigest(hs, truncationOffset, digits, addChecksum) == Success(code);
    RenderLength(s, length);
    var len := PrintDecimal(output, s, length);
    assert output[..|code| + 1] == code + ['\0'];
    status := if len == length then OtpOk else PrintfError;
  }

  /**
   * The `switch (digits)` of `hotp_generate`: S modulo 10^digits for 1 to 8
   * digits, `InvalidDigitNumber` for any other count.
   */
  method ReduceToDigits(s: nat, digits: uint32) returns (r: Result<nat>)
    ensures r.Success? <==> 1 <= digits <= 8
    ensures r.Success? ==> r.value == s % Pow10(digits) && r.value < Pow10(digits)
    ensures r.Failure? ==> r.status == InvalidDigitNumber
  {
    var modulus: nat;
    match digits {
      case 1 => modulus := 10;
      case 2 => modulus := 100;
      case 3 => modulus := 1000;
      case 4 => modulus := 10000;
      case 5 => modulus := 100000;
      case 6 => modulus := 1000000;
      case 7 => modulus := 10000000;
      case 8 => modulus := 100000000;
      case _ => return Failure(InvalidDigitNumber);
    }
    assert modulus == Pow10(digits);
    return Success(s % modulus);
  }

  /**
   * The message loop of `hotp_generate`: byte i of the counter buffer is
   * `(moving_factor >> 8*(7-i)) & 0xFF`.
   */
  method EncodeCounter(movingFactor: uint64) returns (counter: array<byte>)
    ensures fresh(counter) && counter[..] == CounterMessage(movingFactor)
  {
    counter := new byte[8];
    for i := 0 to 8
      invariant counter[..i] == CounterMessage(movingFactor)[..i]
    {
      CounterMessageAt(movingFactor, i);
      counter[i] := movingFactor / Pow256(7 - i) % 256;
    }
  }

  /**
   * `snprintf(output, length + 1, "%.*ld", length, v)` followed by
   * `output[length] = '\0'`: at most `length` characters of the rendering
   * and a NUL are stored; the result is the length of the full rendering.
   */
  method PrintDecimal(output: array<char>, v: nat, length: nat) returns (len: nat)
    requires length < output.Length
    modifies output
    ensures len == |Render(v, length)|
    ensures output[..length + 1] == Render(v, length)[..length] + ['\0']
    ensures len == length ==> output[..length + 1] == Render(v, length) + ['\0']
    ensures output[length + 1..] == old(output[length + 1..])
  {
    var text := Render(v, length);
    forall i | 0 <= i < length {
      output[i] := text[i];
    }
    output[length] := '\0';
    len := |text|;
    assert len == length ==> text[..length] == text;
  }

  /** The code the validators compute for a counter: as many digits as the candidate has, no check digit. */
  function ValidatorCode(mac: Hmac, secret: seq<byte>, counter: uint64, alg: HmacAlgorithm, otp: seq<char>): (r: Result<seq<char>>)
    ensures r.Success? <==> alg.Supported() && 1 <= |otp| % TWO_32 <= 8
    ensures r.Success? ==> |r.value| == |otp| % TWO_32 && IsDecimal(r.value)
  {
    Generate(mac, secret, counter, |otp| % TWO_32, false, DYNAMIC_TRUNCATION, alg)
  }

  /** The code a validator tries at signed distance k from a counter (modulo 2^64). */
  function CodeAt(mac: Hmac, secret: seq<byte>, counter: uint64, k: int, alg: HmacAlgorithm, otp: seq<char>): Result<seq<char>>
  {
    ValidatorCode(mac, secret, Wrap64(counter + k), alg, otp)
  }

  /** The validator's codes as a function of the distance from a counter. */
  function CodesFrom(mac: Hmac, secret: seq<byte>, counter: uint64, alg: HmacAlgorithm, otp: seq<char>): int -> Result<seq<char>>
  {
    k => CodeAt(mac, secret, counter, k, alg, otp)
  }

  /**
   * `CodesFrom(..)(k)` is `CodeAt(.., k, ..)`. A proof step only: the
   * application, wrapped in `At`, gives the solver a term to match on.
   */
  lemma CodesFromAt(mac: Hmac, secret: seq<byte>, counter: uint64, alg: HmacAlgorithm, otp: seq<char>, k: int)
    ensures At(CodesFrom(mac, secret, counter, alg, otp), k) == CodeAt(mac, secret, counter, k, alg, otp)
  {
  }

  /** The same for every distance at once; a proof step only. */
  lemma CodesFromApply(mac: Hmac, secret: seq<byte>, counter: uint64, alg: HmacAlgorithm, otp: seq<char>)
    ensures forall k :: CodesFrom(mac, secret, counter, alg, otp)(k) == CodeAt(mac, secret, counter, k, alg, otp)
  {
  }

  /** A code generated for a counter, without check digit, is the validator's code at distance 0 from it. */
  lemma ValidatorFindsOwnCode(mac: Hmac, secret: seq<byte>, c: uint64, digits: uint32, alg: HmacAlgorithm, code: seq<char>)
    requires Generate(mac, secret, c, digits, false, DYNAMIC_TRUNCATION, alg) == Success(code)
    ensures CodeAt(mac, secret, c, 0, alg, code) == Success(code)
  {
    assert |code| % TWO_32 == digits;
    assert Wrap64(c + 0) == c;
    assert CodeAt(mac, secret, c, 0, alg, code) == ValidatorCode(mac, secret, c, alg, code);
  }

  /** The validator's codes fail, if at all, uniformly and never with `InvalidOtp`. */
  lemma CodesFailUniformly(mac: Hmac, secret: seq<byte>, counter: uint64, alg: HmacAlgorithm, otp: seq<char>)
    ensures UniformFailure(CodesFrom(mac, secret, counter, alg, otp))
  {
    var codes := CodesFrom(mac, secret, counter, alg, otp);
    forall j, k | codes(j).Failure?
      ensures codes(k) == codes(j) && codes(j).status != InvalidOtp
    {
      CodesFromAt(mac, secret, counter, alg, otp, j);
      CodesFromAt(mac, secret, counter, alg, otp, k);
      GenerateFailureIgnoresCounter(mac, secret, secret, Wrap64(counter + j), Wrap64(counter + k),
                                    |otp| % TWO_32, false, DYNAMIC_TRUNCATION, alg);
    }
  }

  /**
   * One step of a validator's search: `hotp_generate` into the scratch
   * buffer for `counter`, then `strcmp` of the candidate with the buffer.
   * An error status of the generator is passed on.
   */
  method Probe(mac: Hmac, secret: seq<byte>, counter: uint64, digits: uint32, alg: HmacAlgorithm,
               otp: seq<char>, tmp: array<char>) returns (r: Result<bool>)
    requires digits == |otp| % TWO_32 && tmp.Length == 10
    modifies tmp
    ensures r.Failure? <==> ValidatorCode(mac, secret, counter, alg, otp).Failure?
    ensures r.Failure? ==> r.status == ValidatorCode(mac, secret, counter, alg, otp).status
    ensures r.Success? ==> (r.value <==> ValidatorCode(mac, secret, counter, alg, otp).value == otp)
  {
    var rc := HotpGenerate(mac, secret, counter, digits, false, DYNAMIC_TRUNCATION, alg, tmp);
    if rc != OtpOk {
      return Failure(rc);
    }
    assert tmp[..digits] == ValidatorCode(mac, secret, counter, alg, otp).value by {
      assert tmp[..digits + 1][..digits] == tmp[..digits];
    }
    // strcmp(otp, tmp_otp) == 0: tmp holds `digits` characters and a NUL
    return Success(tmp[..digits] == otp);
  }

  /** What `hotp_validate` returns. */
  function HotpValidation(mac: Hmac, secret: seq<byte>, start: uint64, window: nat,
                          alg: HmacAlgorithm, otp: seq<char>): (r: Result<nat>)
    ensures r.Success? ==> r.value <= window
  {
    ForwardScan(CodesFrom(mac, secret, start, alg, otp), otp, window, 0)
  }

  /**
   * `hotp_validate`: try the counters start, start + 1, ..., start + window
   * (modulo 2^64) in turn and return the position of the first whose code
   * equals `otp`; a generator error ends the scan at once.
   */
  method HotpValidate(mac: Hmac, secret: seq<byte>, startMovingFactor: uint64, window: uint64,
                      alg: HmacAlgorithm, otp: seq<char>) returns (result: Result<nat>)
    requires window < 0x8000_0000
    ensures result == HotpValidation(mac, secret, startMovingFactor, window, alg, otp)
  {
    ghost var codes := CodesFrom(mac, secret, startMovingFactor, alg, otp);
    var iter: nat := 0;
    var tmp := new char[10];
    var digits: uint32 := |otp| % TWO_32;
    while true
      invariant iter <= window
      invariant ForwardScan(codes, otp, window, iter) == HotpValidation(mac, secret, startMovingFactor, window, alg, otp)
      decreases window - iter
    {
      CodesFromAt(mac, secret, startMovingFactor, alg, otp, iter);
      var probe := Probe(mac, secret, Wrap64(startMovingFactor + iter), digits, alg, otp, tmp);
      if probe.Failure? {
        return Failure(probe.status);
      }
      if probe.value {
        return Success(iter);
      }
      if iter == window {
        break;
      }
      iter := iter + 1;
    }
    return Failure(InvalidOtp);
  }

  /**
   * `hotp_validate` returns position k exactly when the code for counter
   * start + k is the candidate, k is within the window, and every earlier
   * position was generated and did not match.
   */
  lemma HotpValidationFirstMatch(mac: Hmac, secret: seq<byte>, start: uint64, window: nat,
                                 alg: HmacAlgorithm, otp: seq<char>, k: nat)
    ensures HotpValidation(mac, secret, start, window, alg, otp) == Success(k) <==>
      k <= window && CodeAt(mac, secret, start, k, alg, otp) == Success(otp) &&
      forall j :: 0 <= j < k ==> Rejects(CodeAt(mac, secret, start, j, alg, otp), otp)
  {
    var codes := CodesFrom(mac, secret, start, alg, otp);
    ForwardScanFirstMatch(codes, otp, window, 0, k);
    forall j: nat
      ensures codes(j) == CodeAt(mac, secret, start, j, alg, otp)
    {
      CodesFromAt(mac, secret, start, alg, otp, j);
    }
  }

  /**
   * `hotp_validate` reports `InvalidOtp` exactly when every counter of the
   * window, start and start + window included, yields a code other than
   * the candidate.
   */
  lemma HotpValidationNoMatch(mac: Hmac, secret: seq<byte>, start: uint64, window: nat,
                              alg: HmacAlgorithm, otp: seq<char>)
    ensures HotpValidation(mac, secret, start, window, alg, otp) == Failure(InvalidOtp) <==>
      forall j :: 0 <= j <= window ==> Rejects(CodeAt(mac, secret, start, j, alg, otp), otp)
  {
    var codes := CodesFrom(mac, secret, start, alg, otp);
    CodesFailUniformly(mac, secret, start, alg, otp);
    ForwardScanNoMatch(codes, otp, window, 0);
    forall j: nat
      ensures codes(j) == CodeAt(mac, secret, start, j, alg, otp)
    {
      CodesFromAt(mac, secret, start, alg, otp, j);
    }
  }

  /**
   * A generator error is what `hotp_validate` returns, and it comes from
   * the first counter: it depends on the algorithm and the length of the
   * candidate alone. Without one the outcome is a position or `InvalidOtp`.
   */
  lemma HotpValidationError(mac: Hmac, secret: seq<byte>, start: uint64, window: nat,
                            alg: HmacAlgorithm, otp: seq<char>)
    ensures CodeAt(mac, secret, start, 0, alg, otp).Failure? ==>
      HotpValidation(mac, secret, start, window, alg, otp) == Failure(CodeAt(mac, secret, start, 0, alg, otp).status) &&
      CodeAt(mac, secret, start, 0, alg, otp).status in {InvalidHmacAlgorithm, InvalidDigitNumber}
    ensures CodeAt(mac, secret, start, 0, alg, otp).Success? ==>
      HotpValidation(mac, secret, start, window, alg, otp).Success? ||
      HotpValidation(mac, secret, start, window, alg, otp) == Failure(InvalidOtp)
  {
    var codes := CodesFrom(mac, secret, start, alg, otp);
    CodesFailUniformly(mac, secret, start, alg, otp);
    ForwardScanError(codes, otp, window, 0);
    CodesFromAt(mac, secret, start, alg, otp, 0);
  }

  /**
   * Self-consistency: a code generated for counter c (no check digit,
   * dynamic truncation) is accepted at position 0 of any window starting at c.
   */
  lemma HotpValidatesOwnCode(mac: Hmac, secret: seq<byte>, c: uint64, window: nat, digits: uint32,
                             alg: HmacAlgorithm, code: seq<char>)
    requires Generate(mac, secret, c, digits, false, DYNAMIC_TRUNCATION, alg) == Success(code)
    ensures HotpValidation(mac, secret, c, window, alg, code) == Success(0)
  {
    ValidatorFindsOwnCode(mac, secret, c, digits, alg, code);
    CodesFromAt(mac, secret, c, alg, code, 0);
  }
}
