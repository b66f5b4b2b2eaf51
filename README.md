# TOTP generator: a Dafny model

This project models the core of a C# implementation of time-based one-time
passwords (RFC 6238). The code is a static class with three operations, each in
two overloads. The overloads differ only in the epoch that time is measured
from: 1970-01-01 or an explicit `basicTime`.

- `GetTimestamp` gives the time counter: the seconds elapsed since the epoch,
  divided by the time step.
- `GetEffectiveSeconds` gives the seconds left before the current code expires.
- `GenerateTOTP` builds the code. It writes the counter as eight big-endian
  bytes, keys an HMAC with the shared secret and hashes those bytes. It then
  applies the dynamic truncation of section 5.3 of RFC 4226 to the digest and
  reduces the result modulo `10^codeDigits`.

Everything is modelled as functions and lemmas, because the source is pure
static code with no fields and no loops. There are three modules:

- `DotNet` (`dotnet.dfy`) gives the runtime semantics the code depends on:
  - C# `int` and `long` (`Int32`, `Int64`);
  - integer division and remainder rounded toward zero (`Quotient`, `Remainder`);
  - unchecked 32-bit wrap-around (`Wrap32`);
  - `BitConverter.GetBytes` on a little-endian host and `Enumerable.Reverse`;
  - the exceptions these throw, as a `Result` datatype.
- `Bits` (`bits.dfy`) defines bytes as `bv8` and joins four bytes into one
  32-bit word with masks, shifts and `|`, as truncation does.
- `HmacAlgorithms` (`hmac_algorithm.dfy`) gives the six-member `HmacAlgorithm`
  enumeration, the keyed hash as a function-typed parameter `HmacFunction`,
  and each algorithm's digest length (`ConformingHmac`).
- `Totp` (`totp.dfy`) holds the operations and the properties proved about them.

The C# default arguments are kept as Dafny default parameters: `timeStep`
defaults to 30, `codeDigits` to 6 and `algorithm` to `HMACSHA1`.

Time is a parameter. An `Instant` is a whole number of seconds since
0001-01-01, the origin of DateTime, and `now` is passed in explicitly.

Exceptions are modelled as `Failure` results, in the order the code would
throw them:

1. `Convert.ToInt32(Math.Pow(10, codeDigits))` overflows when `codeDigits >= 10`.
   A negative `codeDigits` yields the divisor 0.
2. The counter division throws `DivideByZeroException` when `timeStep == 0`.
   It throws `OverflowException` on `long.MinValue / -1`.
3. `hash.Last()` throws on an empty digest.
4. Indexing throws when `offset + 3` reaches past the digest.
5. The final `% divisor` throws when the divisor is 0.

Three behaviours of the code are worth knowing, and the model follows the code
in each:

- Only a zero `timeStep` fails, by the division throwing. A negative step is
  divided like any other number (`TimeCounter`, `GetTimestamp`).
- The code has no guard on the offset. HMAC-MD5's digest is 16 bytes long, so
  a last byte whose low nibble is 13 or more makes `hash[offset + 3]` index
  past its end (`OffsetFitsDigest`, `Md5Truncation`, `GenerateTotpMd5`).
- Section 4.2 of RFC 6238 defines the counter T with floor division. The code
  divides with C# `/`, which rounds toward zero. The two agree from the epoch
  on (`TimeCounter`, `GetTimestamp`). Before the epoch they differ: counter 0
  spans 59 seconds, and the countdown can exceed the step or wrap around in
  32-bit arithmetic (`BeforeEpochCounterRoundsTowardZero`,
  `BeforeEpochCountdownExceedsStep`).

## Model

| member | source | states |
|---|---|---|
| HmacAlgorithms.DigestLength | src/TOTP/TOTP.Core/HmacAlgorithm.cs:12-38 | the digest length of each of the six `HmacAlgorithm` members is between 16 and 64 bytes, and only HMAC-MD5 has one shorter than 19 bytes |
| DotNet.Quotient | src/TOTP/TOTP.Core/TOTP.cs:36 | C# `/` on `long`: the magnitude is the floor of the magnitudes' quotient and the sign is the product of the operands' signs, i.e. rounding toward zero |
| DotNet.Remainder | src/TOTP/TOTP.Core/TOTP.cs:61 | C# `%`: smaller in magnitude than the divisor, takes the sign of the dividend, and `a == (a / b) * b + a % b` |
| DotNet.QuotientOfNonNegative | src/TOTP/TOTP.Core/TOTP.cs:49 | for a non-negative dividend and positive divisor, C# `/` and `%` equal floor division and the Euclidean remainder |
| DotNet.Wrap32 | src/TOTP/TOTP.Core/TOTP.cs:73 | unchecked `int` subtraction: the result is congruent to the exact value modulo 2^32 and equals it when it fits in an `int` |
| DotNet.Unsigned64 | src/TOTP/TOTP.Core/TOTP.cs:89 | the two's-complement pattern of a `long` as an unsigned number below 2^64, congruent to the `long` modulo 2^64 |
| DotNet.LittleEndianAt | src/TOTP/TOTP.Core/TOTP.cs:89 | byte i of the little-endian form is bits 8i to 8i+7 of the number |
| DotNet.GetBytes | src/TOTP/TOTP.Core/TOTP.cs:117 | `BitConverter.GetBytes(long)` gives 8 bytes, the i-th holding bits 8i to 8i+7 of the two's-complement pattern |
| DotNet.Reverse | src/TOTP/TOTP.Core/TOTP.cs:117 | `Reverse().ToArray()` keeps the length and puts element `|s|-1-i` at position i |
| Totp.GetUnixTimestamp | src/TOTP/TOTP.Core/TOTP.cs:21-24 | the whole seconds from `basicTime` to `now`: `basicTime` plus the result is `now`, and the result is negative exactly when `basicTime` is later than `now` |
| Totp.TimeCounter | src/TOTP/TOTP.Core/TOTP.cs:36 | the counter is the elapsed seconds divided by the step, rounded toward zero. It fails with DivideByZeroException exactly when the step is 0 and with OverflowException exactly on `long.MinValue / -1`, and succeeds on every other input, negative steps included. From the epoch on with a positive step it equals floor division, and the elapsed time lies in `[step*c, step*(c+1))` |
| Totp.GetTimestamp | src/TOTP/TOTP.Core/TOTP.cs:46-51 | measured from `basicTime`, the counter fails only for a zero step (DivideByZeroException). Otherwise it is `(now - basicTime) / step` rounded toward zero, for every non-zero step and on either side of `basicTime`. For `now >= basicTime` and a positive step this is `floor((now - basicTime) / step)`, and `now - basicTime` lies in that counter's window |
| Totp.GetTimestampSinceUnixEpoch | src/TOTP/TOTP.Core/TOTP.cs:33-38 | the implicit-epoch overload equals the `basicTime` overload at 1970-01-01 |
| Totp.RemainingSeconds | src/TOTP/TOTP.Core/TOTP.cs:61 | `step - elapsed % step` with C# `%` and unchecked `int` subtraction. It fails exactly as the counter does and succeeds otherwise. From the epoch on with a positive step it lies in `[1, step]` and equals the step exactly when the elapsed time is a multiple of it |
| Totp.CountdownEndsAtRollover | src/TOTP/TOTP.Core/TOTP.cs:36 | with the counter `elapsed / step` and the countdown `step - elapsed % step` (lines 36 and 61), every second counted down keeps the current counter, and `elapsed + remaining` is the first second of counter + 1 |
| Totp.BeforeEpochCounterRoundsTowardZero | src/TOTP/TOTP.Core/TOTP.cs:46-51 | before the epoch the counter rounds toward zero: -29 s and 29 s both give 0 at step 30, and -30 s gives -1 |
| Totp.BeforeEpochCountdownExceedsStep | src/TOTP/TOTP.Core/TOTP.cs:70-74 | before the epoch the countdown exceeds the step (35 for -5 s at step 30), or wraps around to -3 for a step of 2^31-1 |
| Totp.GetEffectiveSeconds | src/TOTP/TOTP.Core/TOTP.cs:70-74 | fails only for a zero step. Otherwise it is `step - (now - basicTime) % step` with C# `%` and unchecked `int` subtraction. For `now >= basicTime` and a positive step it lies in `[1, step]`, equals the step exactly at a window boundary, and is `step - (now - basicTime) mod step` |
| Totp.GetEffectiveSecondsSinceUnixEpoch | src/TOTP/TOTP.Core/TOTP.cs:58-62 | the implicit-epoch overload equals the `basicTime` overload at 1970-01-01 |
| Totp.EffectiveSecondsEndAtRollover | src/TOTP/TOTP.Core/TOTP.cs:46-74 | for `now >= basicTime` and a positive step, `GetTimestamp` stays the same for every second the countdown of `GetEffectiveSeconds` still shows, and is one more at `now + remaining` |
| Totp.CounterMessage | src/TOTP/TOTP.Core/TOTP.cs:89 | the HMAC message is 8 bytes, high-order byte first: byte i is bits 8(7-i) to 8(7-i)+7 of the counter's two's-complement pattern |
| Totp.BigEndianOfReversed | src/TOTP/TOTP.Core/TOTP.cs:117 | reversing the little-endian bytes of a number and reading them most significant first gives the number back |
| Totp.CounterMessageRoundTrip | src/TOTP/TOTP.Core/TOTP.cs:89 | decoding the message most-significant first as a signed 64-bit integer gives back the counter |
| Totp.CounterMessageInjective | src/TOTP/TOTP.Core/TOTP.cs:117 | distinct counters yield distinct HMAC messages |
| Totp.Divisor | src/TOTP/TOTP.Core/TOTP.cs:87 | `Convert.ToInt32(Math.Pow(10, d))` is `10^d` for `0 <= d <= 9`, is 0 for negative d, and throws OverflowException exactly when `d > 9` |
| Totp.Offset | src/TOTP/TOTP.Core/TOTP.cs:94 | `last & 0x0F` lies in `[0, 15]` and is the last byte modulo 16 |
| Bits.JoinBytes | src/TOTP/TOTP.Core/TOTP.cs:95-99 | the masked, shifted and or-ed 32-bit word equals `(b0 mod 128)·2^24 + b1·2^16 + b2·2^8 + b3` as a number |
| Totp.BinaryCode | src/TOTP/TOTP.Core/TOTP.cs:95-99 | the four masked, shifted and or-ed bytes are below 2^31, and equal their big-endian value with the sign bit cleared |
| Totp.DynamicTruncation | src/TOTP/TOTP.Core/TOTP.cs:122-127 | an empty digest throws InvalidOperationException, and an offset with `offset + 4 > length` throws IndexOutOfRangeException. Every other digest succeeds, and the result is the big-endian value of `hash[offset..offset+4]` modulo 2^31. Every digest of 19 bytes or more succeeds |
| Totp.OneTimePassword | src/TOTP/TOTP.Core/TOTP.cs:94-100 | succeeds exactly when truncation succeeds and the divisor is positive, and is then the truncated value modulo the divisor. A zero divisor throws DivideByZeroException |
| Totp.OffsetFitsDigest | src/TOTP/TOTP.Core/TOTP.cs:122-127 | truncation succeeds on every digest of the algorithm's length exactly when the algorithm is not HMAC-MD5 |
| Totp.Md5Truncation | src/TOTP/TOTP.Core/TOTP.cs:94-99 | on a 16-byte digest truncation fails exactly when the last byte's low nibble is 13 or more |
| Totp.Rfc4226Example | src/TOTP/TOTP.Core/TOTP.cs:122-128 | the worked example of section 5.4 of RFC 4226: offset 10, value 0x50ef7f19, 6-digit code 872921 |
| Totp.GenerateTotp | src/TOTP/TOTP.Core/TOTP.cs:113-130 | `codeDigits > 9` throws OverflowException, then a zero step throws DivideByZeroException, then a truncation failure on the HMAC of the counter message is passed on, then a negative `codeDigits` throws DivideByZeroException. Otherwise a code is produced, and it is the truncation of the HMAC of the big-endian round-toward-zero counter, modulo `10^codeDigits`, so it lies in `[0, 10^codeDigits)` |
| Totp.GenerateTotpSinceUnixEpoch | src/TOTP/TOTP.Core/TOTP.cs:85-102 | the implicit-epoch overload equals the `basicTime` overload at 1970-01-01 |
| Totp.GenerateTotpSucceeds | src/TOTP/TOTP.Core/TOTP.cs:113-130 | for `now >= basicTime`, a positive step, 0 to 9 digits and any algorithm but HMAC-MD5, a code is always produced. It is the truncation of the HMAC of the big-endian floor-divided counter, modulo `10^codeDigits` |
| Totp.DefaultsGiveSixDigitSha1Code | src/TOTP/TOTP.Core/TOTP.cs:85-102 | called with its default arguments (a 30-second step, 6 digits, HMAC-SHA1) at or after 1970-01-01, the generator always gives a code, and it is the truncated HMAC-SHA1 of the counter `(now - epoch) / 30`, modulo 10^6 |
| Totp.GenerateTotpMd5 | src/TOTP/TOTP.Core/TOTP.cs:113-130 | with HMAC-MD5, a non-zero step and 0 to 9 digits, generation throws IndexOutOfRangeException exactly when the digest's last low nibble is 13 or more |
| Totp.ZeroDigitsGiveZero | src/TOTP/TOTP.Core/TOTP.cs:115-128 | with `codeDigits == 0` any code produced is 0 |

## Left out

- The wall clock and `Math.Round(... TotalSeconds)`. `now` is a parameter, and instants are whole seconds, so the rounding of a fractional difference and its floating-point error are not modelled.
- `Math.Pow` as a double. `Divisor` gives the integer outcome of `Convert.ToInt32(Math.Pow(10, d))` for every integer `d`.
- The HMAC primitive: `Enum.GetName`, `HMAC.Create`, `Key` and `ComputeHash`. The keyed hash is a parameter, and its digest lengths are an assumption (`ConformingHmac`). Because of this, the end-to-end test vectors of Appendix B of RFC 6238 cannot be proved. Only the truncation example on a fixed digest can. A runtime on which `HMAC.Create` returns null for a name is not modelled.
- A null `key` and the exceptions the cryptography library itself may throw.
- Host endianness. `GetBytes` is `BitConverter.GetBytes` on a little-endian host, the only kind the code produces a big-endian message on.
- Checked-arithmetic compilation. `int` arithmetic is taken to be unchecked, the C# default.
- `src/TOTP/TOTP.Demo/MainWindow.xaml.cs` (window, timer, property-change notification, ASCII key encoding) is presentation code and is not part of this model.
