# simple_otp one-time passwords in Dafny

A model of the one-time-password core of the simple_otp C library:

- The HOTP generator `hotp_generate` (RFC 4226, sections 5.2 and 5.3). It:
  - encodes the 64-bit moving factor as eight big-endian bytes;
  - takes one HMAC of them;
  - picks the dynamic (or an explicit) truncation offset and builds the 31-bit value S;
  - reduces S to 1 to 8 decimal digits;
  - optionally appends the Luhn-style check digit of `_checksumCalculation` / `_getDigitForChecksum`;
  - writes the zero-padded code and a NUL into the caller's buffer.
- The look-ahead validator `hotp_validate`.
- The TOTP layer of totp.c (RFC 6238):
  - `totp_generate`, which turns a Unix time into a counter of elapsed time steps;
  - `totp_validate`, which searches a window centred on that counter in the order 0, +1, -1, +2, -2, … and optionally reports the signed position and the matching counter through out-parameters.

Modules:

- `Common`: the machine integer types, the status codes of common.h, and `Result`/`Option`. It also holds the HMAC primitive, a function-typed parameter `Hmac` whose only known property is its digest length (20, 32 or 64 bytes).
- `Numeric`: powers, division facts, and the big-endian reading and writing of bytes.
- `Decimal`: the `"%.*ld"` rendering of a non-negative value.
- `Checksum`: the check digit.
- `Window`: the two search orders, as recursive functions over the code at each signed distance.
- `Hotp`: hotp.c.
- `Totp`: totp.c and totp.h.

Each C function that works step by step is a method proved against a specification function:
- `HotpGenerate` against `Generate`;
- `ChecksumCalculation` against `CheckDigit`;
- `HotpValidate` against `HotpValidation`;
- `TotpValidate` against `TotpScan`.

The lemmas state what those functions guarantee:
- the message round-trips;
- S is a 31-bit big-endian value;
- the check digit makes the code pass the Luhn test and catches every single-digit error;
- each validator returns the first match in its order, returns `InvalidOtp` exactly when nothing in the window matches, and returns a generator error at once;
- a generated code validates at position 0;
- a code within the window is accepted.

`HOTP_DYNAMIC_TRUNCATION` comes from hotp.h, which is not part of this model. It is taken to be SIZE_MAX. The model relies only on it being at least the largest digest size less four, so it always selects the dynamic offset.

## Model

| member | source | states |
|---|---|---|
| Common.Wrap64 | src/hotp.c:241 | unsigned 64-bit addition wraps: values in range are kept, one overflow or underflow is corrected by 2^64 |
| Common.Status.Code | src/common.h:36-42 | each status has the enumerator's value, from 0 to -4; 0 means success and nothing else |
| Common.StatusCodesDistinct | src/common.h:36-42 | distinct statuses have distinct codes and every error code is negative |
| Common.DigestSize | src/hotp.c:75-90 | the digest of SHA1, SHA256 and SHA512 has 20, 32 or 64 bytes |
| Numeric.LowDigitsIsMod | src/hotp.c:105-132 | keeping the low n decimal digits is reduction modulo 10^n |
| Numeric.BigEndianBytesAt | src/hotp.c:72-73 | byte i of the n-byte big-endian encoding is (c >> 8*(n-1-i)) & 0xFF |
| Numeric.BigEndianBytesRoundTrip | src/hotp.c:72-73 | decoding the n-byte encoding gives the number modulo 256^n |
| Decimal.Render | src/hotp.c:140 | the rendering is all decimal digits and at least as long as the precision |
| Decimal.RenderLength | src/hotp.c:140-143 | a value below 10^p renders in exactly p characters, so the length check after printing never fails |
| Decimal.RenderValue | src/hotp.c:140 | reading the rendering back as a decimal number gives the value printed |
| Checksum.ChecksumDigit | src/hotp.c:157-180 | the table lookup maps a digit d to the digit sum of 2d, a digit |
| Checksum.ChecksumTableIsPermutation | src/hotp.c:157-180 | the table is a permutation of 0..9: injective and onto |
| Checksum.Substitute | src/hotp.c:195-200 | what one digit adds to `total`: its table substitute in a doubled position, itself otherwise; the result is a digit |
| Checksum.LuhnSum | src/hotp.c:194-202 | reference definition of the loop's final `total` over `digits` digits, with no contract of its own; characterised by the loop invariant of `ChecksumCalculation`, by `CheckDigit`, `LuhnSumLeadingZero` and `LuhnDetectsSingleDigitError` |
| Checksum.CheckDigit | src/hotp.c:203-207 | the check digit is in 0..9 and brings the substituted digit sum to a multiple of ten |
| Checksum.ChecksumCalculation | src/hotp.c:191-208 | the loop computes the check digit over exactly `digits` digits, substituting the 1st, 3rd, 5th … from the right |
| Checksum.LuhnSumLeadingZero | src/hotp.c:134-136 | a value below 10^d has the same substituted sum over d + 1 digits as over d |
| Checksum.CheckDigitLeadingZero | src/hotp.c:134-136 | asking for the check digit over the incremented length gives the check digit over the original digits |
| Checksum.LuhnCodeVerifies | src/hotp.c:136 | the value with its check digit appended passes the Luhn test over all its digits |
| Checksum.AppendCheckDigit | src/hotp.c:136 | S * 10 + check has at most one digit more than S and gives back S when divided by ten |
| Checksum.AppendCheckDigitVerifies | src/hotp.c:136 | the last digit of the extended value is the check digit and the whole passes the Luhn test |
| Checksum.LuhnDetectsSingleDigitError | src/hotp.c:191-208 | two values differing in exactly one of their low n digits have different substituted sums modulo ten |
| Hotp.OtpLength | src/hotp.c:45-47 | a code has `digits` characters, one more with a check digit |
| Hotp.CounterMessage | src/hotp.c:72-73 | the HMAC message has eight bytes |
| Hotp.CounterMessageAt | src/hotp.c:72-73 | byte i of the message is (moving_factor >> 8*(7-i)) & 0xFF, byte i of the big-endian encoding |
| Hotp.CounterMessageIsBigEndian | src/hotp.c:72-73 | the message is the 8-byte big-endian encoding of the moving factor |
| Hotp.CounterMessageRoundTrip | src/hotp.c:72-73 | decoding the message high-order byte first gives back the moving factor |
| Hotp.EncodeCounter | src/hotp.c:72-73 | the loop fills a fresh 8-byte buffer with the message |
| Hotp.TruncationOffset | src/hotp.c:95-98 | the explicit offset is used exactly when it is below hssize - 4, otherwise the low nibble of the last digest byte; either way the four bytes read lie inside the digest |
| Hotp.DynamicTruncationIsDynamic | src/hotp.c:95-98 | the dynamic-truncation sentinel always selects the dynamic offset, which is at most 15 |
| Hotp.TruncatedValue | src/hotp.c:100-102 | S is below 2^31 |
| Hotp.TruncatedValueIsBigEndian | src/hotp.c:100-102 | S is the big-endian value of the four bytes at the offset with the top bit of the first cleared |
| Hotp.HotpValue | src/hotp.c:105-137 | the value printed has at most as many digits as the code |
| Hotp.HotpValueDigits | src/hotp.c:105-137 | the value is S mod 10^digits; with a check digit it is that number followed by its check digit, and it passes the Luhn test |
| Hotp.ReduceToDigits | src/hotp.c:105-132 | digits 1 to 8 give S mod 10^digits; any other count gives `InvalidDigitNumber` |
| Hotp.PrintDecimal | src/hotp.c:139-144 | the buffer holds the first `length` characters of the rendering and a NUL; the full rendering's length is returned; the rest of the buffer is unchanged |
| Hotp.CodeOfDigest | src/hotp.c:95-146 | for 1 to 8 digits the code has `OtpLength` decimal characters spelling the HOTP value; otherwise `InvalidDigitNumber` |
| Hotp.Generate | src/hotp.c:55-147 | an unknown algorithm gives `InvalidHmacAlgorithm` before the digit count is checked; generation succeeds exactly for a known algorithm and 1 to 8 digits, and the code then spells the HOTP value of HMAC(secret, message) |
| Hotp.GenerateFailureIgnoresCounter | src/hotp.c:75-132 | whether and how generation fails does not depend on the secret or the counter |
| Hotp.HotpGenerate | src/hotp.c:55-147 | on success the code and a NUL are written at the start of the buffer and `OtpOk` is returned; on an error the status is returned and the buffer is untouched |
| Hotp.WriteCode | src/hotp.c:95-146 | the same for the steps after the HMAC, from the digest; the printf error is never returned |
| Hotp.ValidatorFindsOwnCode | src/hotp.c:236-243 | a code generated without check digit is the code the validator computes for the same counter |
| Hotp.ValidatorCode | src/hotp.c:239-243 | the validators' generator call, with `strlen(otp)` truncated to `unsigned`: it succeeds exactly for a known algorithm and 1 to 8 characters, and the code then has that many decimal characters |
| Hotp.CodeAt | src/hotp.c:241 | reference definition, with no contract of its own: the code tried at counter start + k modulo 2^64; characterised by `ValidatorFindsOwnCode` and `CodesFailUniformly` |
| Hotp.CodesFrom | src/hotp.c:238-248 | reference definition, with no contract of its own: `CodeAt` as a function of the distance, the input of the window scans |
| Hotp.CodesFailUniformly | src/hotp.c:239-245 | a validator's generator error is the same at every counter and is never `InvalidOtp` |
| Hotp.Probe | src/hotp.c:239-246 | one generate-and-strcmp step: the generator's error, or whether the code equals the candidate |
| Hotp.HotpValidation | src/hotp.c:227-251 | the specification of `hotp_validate`: a returned position lies within the window; characterised by `HotpValidationFirstMatch`, `HotpValidationNoMatch` and `HotpValidationError` |
| Hotp.HotpValidate | src/hotp.c:227-251 | the loop returns what the look-ahead scan of counters start, start + 1, …, start + window returns |
| Hotp.HotpValidationFirstMatch | src/hotp.c:238-248 | position k is returned exactly when k is within the window, the code for start + k is the candidate, and every earlier position gives another code |
| Hotp.HotpValidationNoMatch | src/hotp.c:238-250 | `InvalidOtp` is returned exactly when every counter from start to start + window gives another code |
| Hotp.HotpValidationError | src/hotp.c:244-245 | a generator error shows at the first counter and is returned (an algorithm or digit-count error); without one the result is a position or `InvalidOtp` |
| Hotp.HotpValidatesOwnCode | src/hotp.c:238-247 | a code generated for counter c validates at position 0 of any window starting at c |
| Window.ForwardScanFirstMatch | src/hotp.c:238-248 | the look-ahead scan stops at the first matching distance |
| Window.ForwardScanNoMatch | src/hotp.c:238-250 | the look-ahead scan ends with `InvalidOtp` exactly when every distance rejects |
| Window.ForwardScanError | src/hotp.c:244-245 | with uniform generator errors the scan returns the error of the first distance |
| Window.ForwardScan | src/hotp.c:238-250 | a returned distance lies between the first tried and the window and its code is the candidate; characterised by `ForwardScanFirstMatch`, `ForwardScanNoMatch` and `ForwardScanError` |
| Window.CentredStep | src/totp.c:122-159 | a pass that matches reports a signed distance of size `iter` whose code is the candidate |
| Window.CentredScan | src/totp.c:122-162 | a returned signed distance has a size between the first pass tried and the window, and its code is the candidate; characterised by `CentredScanFirstMatch`, `CentredScanNoMatch` and `CentredScanError` |
| Window.CentredScanFirstMatch | src/totp.c:122-160 | the two-way scan stops at the first matching distance in the order +i before -i, by increasing i |
| Window.CentredScanFirstMatchFromStart | src/totp.c:122-160 | the same from the first pass: all distances strictly between -abs(pos) and +abs(pos) reject, and +abs(pos) too when pos is backward |
| Window.CentredScanMatchAtZero | src/totp.c:122-139 | a match at distance 0 ends the scan there |
| Window.CentredScanNoMatch | src/totp.c:122-162 | the two-way scan ends with `InvalidOtp` exactly when every distance from -window to +window rejects |
| Window.CentredScanError | src/totp.c:130-131 | with uniform generator errors the two-way scan returns the error of distance 0 |
| Totp.EffectiveTimeStep | src/totp.c:65-66 | a step of 0 becomes `TOTP_DEFAULT_TIME_STEP` (30); any other step is kept |
| Totp.TruncDiv | src/totp.c:68 | reference definition, with no contract of its own, of C's signed `/`; characterised by `TruncDivTowardZero` |
| Totp.TruncDivTowardZero | src/totp.c:68 | the signed division rounds toward zero |
| Totp.TimeCounter | src/totp.c:68 | `nts`: from the start offset on, the number of whole steps elapsed (floor division); characterised further by `TimeCounterBucket` and `TimeCounterBeforeStart` |
| Totp.TimeCounterBucket | src/totp.c:68 | any time in the k-th step after the start offset gives counter k |
| Totp.TimeCounterBeforeStart | src/totp.c:68 | before the start offset, less than one step early gives counter 0 and earlier times wrap to 2^64 minus the number of whole steps |
| Totp.TotpGeneration | src/totp.c:55-76 | what `totp_generate` produces: it succeeds exactly for a known algorithm and 1 to 8 digits, with a code of `digits` characters; `TotpGenerationWithinStep` ties it to the HOTP code of the step |
| Totp.TotpGenerationWithinStep | src/totp.c:55-76 | the code at any time in step k is the HOTP code of counter k, without check digit, with dynamic truncation |
| Totp.TotpGenerate | src/totp.c:55-76 | the code of the time counter is written as `hotp_generate` writes it, or the generator's status is returned with the buffer untouched |
| Totp.TotpStep | src/totp.c:122-159 | one pass computes one or two codes, forward then backward, and ends with an error, a signed match, or nothing |
| Totp.BackwardProbe | src/totp.c:141-158 | the backward half of a pass compares the code for nts - iter with the candidate |
| Totp.TotpScan | src/totp.c:122-162 | the specification of the search of `totp_validate`: a returned signed distance lies within the window; characterised by `TotpValidationFirstMatch`, `TotpValidationNoMatch` and `TotpValidationError` |
| Totp.Ref.constructor | src/totp.c:107-108 | a caller's out-parameter cell (`int *otp_pos`, `uint64_t *otp_counter`) holding the given value; `null` stands for a NULL pointer |
| Totp.CentredLoop | src/totp.c:122-162 | the loop returns what the two-way scan around nts returns, after at most 2 * window + 1 generated codes |
| Totp.CentredSearch | src/totp.c:133-158 | on a match the signed distance and the counter nts + pos are stored in the out-parameters that are given and abs(pos) is returned; otherwise neither is written |
| Totp.TotpValidate | src/totp.c:101-164 | `totp_validate` returns abs(pos) for the first match around the time counter and writes pos and the matching counter when asked; on an error or no match it writes nothing |
| Totp.TotpValidationFirstMatch | src/totp.c:122-160 | the search stops at pos exactly when the code for nts + pos is the candidate, pos is within the window, and every distance tried before it rejects |
| Totp.TotpValidationNoMatch | src/totp.c:160-162 | `InvalidOtp` is returned exactly when every counter from nts - window to nts + window gives another code |
| Totp.TotpValidationError | src/totp.c:130-131 | a generator error shows at the first counter and is returned; without one the result is a match or `InvalidOtp` |
| Totp.TotpValidatesOwnCode | src/totp.c:122-139 | the code generated for nts is found at distance 0 |
| Totp.TotpRoundTrip | src/totp.c:117-139 | the code `totp_generate` produces at a time is found by `totp_validate` at the same time at distance 0, so the reported counter is the time counter |
| Totp.TotpAcceptsSkew | src/totp.c:122-160 | a code for any counter within window steps before or after nts is accepted, at a distance no larger than its own |

## Left out

- HMAC-SHA1/256/512 come from an external crypto package whose sources are not part of this model. `Hmac` is a parameter constrained only by digest length. So the published RFC 4226 and RFC 6238 test vectors, which depend on real SHA output, are not modelled.
- `snprintf` is replaced by `Decimal.Render`, the zero-padded rendering `"%.*ld"` performs for a non-negative value. The C library itself is not part of this model.
- hotp.h is not part of this model. `HOTP_LENGTH` is taken from the documentation of `hotp_generate`, and `HOTP_DYNAMIC_TRUNCATION` is taken to be SIZE_MAX.
- example/main.c is not part of this model. It is a demonstration program that prints to the console, reads the clock and uses a Base32 codec.
- `HotpValidate` and `TotpValidate` require `window < 2^31`:
  - the loop counter is a 32-bit `unsigned` compared with a `size_t` window;
  - the position is returned through an `int`;
  - `totp_validate` stores `-iter` into an `int`.
  For `window >= 2^32` the loop test `window - iter++ > 0` (src/hotp.c:248, src/totp.c:160) never becomes false, because the 32-bit `iter` wraps back to 0; when nothing matches, both validators loop forever. For `2^31 <= window < 2^32` a match at `iter >= 2^31` is returned through `int` (src/hotp.c:247, src/totp.c:138 and 157) as a negative value, which a caller reads as an error status. Neither behaviour is modelled. The 64-bit modular counter arithmetic (`nts + iter`, `nts - iter`, `start + iter`) is modelled.
- `TimeCounter`, `TotpGenerate` and `TotpValidate` require that `now - start_offset` does not overflow the signed 64-bit `time_t`. The division of that difference by the unsigned step is modelled as C performs it: signed, rounded toward zero, then converted to `uint64`.
- Candidate OTPs are sequences of characters without an embedded NUL. `strlen` is their length, and `strcmp` is sequence equality against the NUL-terminated code.
- `Checksum.ChecksumDigit` requires a digit in 0..9. `_getDigitForChecksum` has no return value for other inputs, and its only caller passes `otp % 10` of a non-negative value.
- `BackwardProbe`: the backward generator-error exit of `totp_validate` is modelled, but it is never taken. The forward call for the same pass has just succeeded, and generator errors do not depend on the counter (`Hotp.GenerateFailureIgnoresCounter`).
