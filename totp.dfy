/** Time-based one-time passwords as RFC 6238 defines them: the time counter,
    its 8-byte big-endian encoding as the HMAC message, the dynamic truncation
    of section 5.3 of RFC 4226, the decimal reduction, and the countdown to
    the next code. Every operation is a function of its inputs; the clock
    and the keyed hash are parameters. */
module Totp {
  import opened DotNet
  import opened HmacAlgorithms
  import opened Bits

  // ---------------------------------------------------------------------
  // Time
  // ---------------------------------------------------------------------

  /** A point in time that DateTime can hold, in whole seconds since
      0001-01-01T00:00:00, DateTime's origin; 9999-12-31T23:59:59 is the last. */
  type Instant = s: int | 0 <= s <= MaxInstant

  const MaxInstant := 315537897599

  /** 1970-01-01T00:00:00, the default `basicTime`. */
  const UnixEpoch: Instant := 62135596800

  /** The seconds from `basicTime` to `now`; negative when `basicTime` lies
      in the future. */
  function GetUnixTimestamp(now: Instant, basicTime: Instant): (seconds: Int64)
    ensures seconds < 0 <==> now < basicTime
    ensures basicTime + seconds == now
  {
    now - basicTime
  }

  /** `Timestamp / timeStep`, a `long` divided by an `int` in C#. */
  function TimeCounter(elapsed: Int64, timeStep: Int32): (r: Result<Int64>)
    ensures r == Failure(DivideByZeroException) <==> timeStep == 0
    ensures r == Failure(OverflowException) <==> elapsed == Int64MinValue && timeStep == -1
    ensures r.Success? <==> timeStep != 0 && !(elapsed == Int64MinValue && timeStep == -1)
    ensures r.Success? ==> r.value == Quotient(elapsed, timeStep)
    ensures elapsed >= 0 && timeStep > 0 ==> r == Success(elapsed / timeStep)
    ensures elapsed >= 0 && timeStep > 0 ==> timeStep * r.value <= elapsed < timeStep * (r.value + 1)
  {
    if timeStep == 0 then Failure(DivideByZeroException)
    else if elapsed == Int64MinValue && timeStep == -1 then Failure(OverflowException)
    else
      var q := Quotient(elapsed, timeStep);
      assert Abs(q) <= Abs(elapsed) by {
        if Abs(q) > 0 { MulAtLeast(Abs(q), Abs(timeStep)); }
      }
      QuotientOfNonNegativeWindow(elapsed, timeStep);
      Success(q)
  }

  lemma QuotientOfNonNegativeWindow(a: int, b: int)
    requires b != 0
    ensures a >= 0 && b > 0 ==> Quotient(a, b) == a / b
    ensures a >= 0 && b > 0 ==> b * (a / b) <= a < b * (a / b + 1)
  {
    if a >= 0 && b > 0 {
      QuotientOfNonNegative(a, b);
      assert a == b * (a / b) + a % b;
    }
  }

  /** `timeStep - Convert.ToInt32(unixTimestamp % timeStep)` in unchecked
      `int` arithmetic. */
  function RemainingSeconds(elapsed: Int64, timeStep: Int32): (r: Result<Int32>)
    ensures r == Failure(DivideByZeroException) <==> timeStep == 0
    ensures r == Failure(OverflowException) <==> elapsed == Int64MinValue && timeStep == -1
    ensures r.Success? <==> timeStep != 0 && !(elapsed == Int64MinValue && timeStep == -1)
    ensures r.Success? ==> r.value == Wrap32(timeStep - Remainder(elapsed, timeStep))
    ensures elapsed >= 0 && timeStep > 0 ==> r.Success? && 1 <= r.value <= timeStep
    ensures elapsed >= 0 && timeStep > 0 ==> r.value == timeStep - elapsed % timeStep
    ensures elapsed >= 0 && timeStep > 0 ==> (r.value == timeStep <==> elapsed % timeStep == 0)
  {
    if timeStep == 0 then Failure(DivideByZeroException)
    else if elapsed == Int64MinValue && timeStep == -1 then Failure(OverflowException)
    else
      // Convert.ToInt32 cannot overflow: the remainder is smaller than the step.
      var remainder: Int32 := Remainder(elapsed, timeStep);
      assert elapsed >= 0 && timeStep > 0 ==> remainder == elapsed % timeStep by {
        if elapsed >= 0 && timeStep > 0 { QuotientOfNonNegative(elapsed, timeStep); }
      }
      Success(Wrap32(timeStep - remainder))
  }

  /** On and after the epoch the countdown reaches the instant at which the
      counter steps: every second it counts down keeps the current counter,
      and `elapsed + remaining` is the first second of the next one. */
  lemma CountdownEndsAtRollover(elapsed: Int64, timeStep: Int32)
    requires elapsed >= 0 && timeStep > 0 && elapsed + timeStep <= Int64MaxValue
    ensures
      var counter, remaining := TimeCounter(elapsed, timeStep).value, RemainingSeconds(elapsed, timeStep).value;
      && TimeCounter(elapsed + remaining, timeStep) == Success(counter + 1)
      && forall e: Int64 :: elapsed <= e < elapsed + remaining ==> TimeCounter(e, timeStep) == Success(counter)
  {
    var counter, remaining := TimeCounter(elapsed, timeStep).value, RemainingSeconds(elapsed, timeStep).value;
    var m := elapsed % timeStep;
    assert counter == elapsed / timeStep;
    assert remaining == timeStep - m;
    assert elapsed == timeStep * counter + m;
    assert elapsed + remaining == timeStep * (counter + 1);
    DivUnique(elapsed + remaining, timeStep, counter + 1, 0);
    forall e: Int64 | elapsed <= e < elapsed + remaining
      ensures TimeCounter(e, timeStep) == Success(counter)
    {
      assert e == timeStep * counter + (m + e - elapsed);
      DivUnique(e, timeStep, counter, m + e - elapsed);
    }
  }

  /** Before the epoch the division rounds toward zero, not down: counter 0
      spans the 59 seconds from -29 to 29. */
  lemma BeforeEpochCounterRoundsTowardZero()
    ensures TimeCounter(-29, 30) == TimeCounter(29, 30) == Success(0)
    ensures TimeCounter(-30, 30) == Success(-1)
  {
    assert Quotient(-29, 30) == 0;
    assert Quotient(-30, 30) == -1;
  }

  /** Before the epoch the countdown exceeds the step, and with a large step
      the subtraction wraps around to a negative `int`. */
  lemma BeforeEpochCountdownExceedsStep()
    ensures RemainingSeconds(-5, 30) == Success(35)
    ensures RemainingSeconds(-0x7FFF_FFFE, 0x7FFF_FFFF) == Success(-3)
  {
    assert Quotient(-5, 30) == 0;
    assert Remainder(-5, 30) == -5;
    assert Quotient(-0x7FFF_FFFE, 0x7FFF_FFFF) == 0;
    assert Remainder(-0x7FFF_FFFE, 0x7FFF_FFFF) == -0x7FFF_FFFE;
    assert Wrap32(0x1_0000_0000 - 3) == -3;
  }

  /** GetTimestamp(basicTime, timeStep): the counter measured from `basicTime`. */
  function GetTimestamp(now: Instant, basicTime: Instant, timeStep: Int32 := 30): (r: Result<Int64>)
    ensures r.Success? <==> timeStep != 0
    ensures r.Failure? ==> r.error == DivideByZeroException
    ensures r.Success? ==> r.value == Quotient(now - basicTime, timeStep)
    ensures basicTime <= now && timeStep > 0 ==>
      r.value == (now - basicTime) / timeStep &&
      timeStep * r.value <= now - basicTime < timeStep * (r.value + 1)
  {
    var timestamp := GetUnixTimestamp(now, basicTime);
    TimeCounter(timestamp, timeStep)
  }

  /** GetTimestamp(timeStep): the counter measured from 1970-01-01. */
  function GetTimestampSinceUnixEpoch(now: Instant, timeStep: Int32 := 30): (r: Result<Int64>)
    ensures r == GetTimestamp(now, UnixEpoch, timeStep)
  {
    var timestamp := GetUnixTimestamp(now, UnixEpoch);
    TimeCounter(timestamp, timeStep)
  }

  /** GetEffectiveSeconds(basicTime, timeStep): seconds until the code changes. */
  function GetEffectiveSeconds(now: Instant, basicTime: Instant, timeStep: Int32 := 30): (r: Result<Int32>)
    ensures r.Success? <==> timeStep != 0
    ensures r.Failure? ==> r.error == DivideByZeroException
    ensures r.Success? ==> r.value == Wrap32(timeStep - Remainder(now - basicTime, timeStep))
    ensures basicTime <= now && timeStep > 0 ==> 1 <= r.value <= timeStep
    ensures basicTime <= now && timeStep > 0 ==> r.value == timeStep - (now - basicTime) % timeStep
    ensures basicTime <= now && timeStep > 0 ==>
      (r.value == timeStep <==> (now - basicTime) % timeStep == 0)
  {
    var unixTimestamp := GetUnixTimestamp(now, basicTime);
    RemainingSeconds(unixTimestamp, timeStep)
  }

  /** The countdown and the counter agree: during the seconds the countdown
      still shows, the counter stays the same, and when it runs out the
      counter has moved on by one (unless that instant is past DateTime's
      last second). */
  lemma EffectiveSecondsEndAtRollover(now: Instant, basicTime: Instant, timeStep: Int32)
    requires basicTime <= now && timeStep > 0
    ensures
      var counter := GetTimestamp(now, basicTime, timeStep).value;
      var remaining := GetEffectiveSeconds(now, basicTime, timeStep).value;
      && (now + remaining <= MaxInstant ==>
            GetTimestamp(now + remaining, basicTime, timeStep) == Success(counter + 1))
      && forall t: Instant :: now <= t < now + remaining ==>
           GetTimestamp(t, basicTime, timeStep) == Success(counter)
  {
    var elapsed := now - basicTime;
    CountdownEndsAtRollover(elapsed, timeStep);
    var counter := TimeCounter(elapsed, timeStep).value;
    var remaining := RemainingSeconds(elapsed, timeStep).value;
    forall t: Instant | now <= t < now + remaining
      ensures GetTimestamp(t, basicTime, timeStep) == Success(counter)
    {
      assert TimeCounter(t - basicTime, timeStep) == Success(counter);
    }
  }

  /** GetEffectiveSeconds(timeStep): the same, measured from 1970-01-01. */
  function GetEffectiveSecondsSinceUnixEpoch(now: Instant, timeStep: Int32 := 30): (r: Result<Int32>)
    ensures r == GetEffectiveSeconds(now, UnixEpoch, timeStep)
  {
    var unixTimestamp := GetUnixTimestamp(now, UnixEpoch);
    RemainingSeconds(unixTimestamp, timeStep)
  }

  // ---------------------------------------------------------------------
  // The HMAC message
  // ---------------------------------------------------------------------

  /** A byte sequence read as an unsigned number, most significant byte first. */
  function FromBigEndian(bs: seq<Byte>): (v: nat)
  {
    if |bs| == 0 then 0 else FromBigEndian(bs[..|bs| - 1]) * 256 + bs[|bs| - 1] as int
  }

  /** Eight bytes read back as a two's-complement `long`, high-order byte first. */
  function DecodeCounter(message: seq<Byte>): (c: int)
    requires |message| == 8
  {
    var u := FromBigEndian(message);
    if u >= 0x8000_0000_0000_0000 then u - 0x1_0000_0000_0000_0000 else u
  }

  /** `BitConverter.GetBytes(counter).Reverse().ToArray()` on a
      little-endian host: the counter as eight bytes, high-order byte first. */
  function CounterMessage(counter: Int64): (message: seq<Byte>)
    ensures |message| == 8
    ensures forall i :: 0 <= i < 8 ==> message[i] as int == Unsigned64(counter) / Pow256(7 - i) % 256
  {
    var bytes := GetBytes(counter);
    var message := Reverse(bytes);
    assert forall i :: 0 <= i < 8 ==> message[i] == bytes[7 - i];
    message
  }

  lemma {:induction false} BigEndianOfReversed(u: nat, n: nat)
    requires u < Pow256(n)
    ensures FromBigEndian(Reverse(LittleEndian(u, n))) == u
  {
    if n > 0 {
      var s := LittleEndian(u, n);
      var r := Reverse(s[1..]);
      assert s[1..] == LittleEndian(u / 256, n - 1);
      assert Reverse(s) == r + [s[0]];
      assert (r + [s[0]])[..|r|] == r;
      BigEndianOfReversed(u / 256, n - 1);
    }
  }

  /** The message decodes to the counter it was built from. */
  lemma CounterMessageRoundTrip(counter: Int64)
    ensures DecodeCounter(CounterMessage(counter)) == counter
  {
    var u := Unsigned64(counter);
    assert Pow256(8) == 0x1_0000_0000_0000_0000;
    BigEndianOfReversed(u, 8);
  }

  /** Distinct counters give distinct messages. */
  lemma CounterMessageInjective(c1: Int64, c2: Int64)
    requires CounterMessage(c1) == CounterMessage(c2)
    ensures c1 == c2
  {
    CounterMessageRoundTrip(c1);
    CounterMessageRoundTrip(c2);
  }

  // ---------------------------------------------------------------------
  // Dynamic truncation and the decimal code
  // ---------------------------------------------------------------------

  function Pow10(n: nat): (p: nat)
    ensures p >= 1
  {
    if n == 0 then 1 else 10 * Pow10(n - 1)
  }

  /** `Convert.ToInt32(Math.Pow(10, codeDigits))`: exact for 0 to 9 digits,
      10^10 and above do not fit an `int`, and a negative power rounds to 0. */
  function Divisor(codeDigits: Int32): (r: Result<nat>)
    ensures r.Failure? <==> codeDigits > 9
    ensures r.Failure? ==> r.error == OverflowException
    ensures codeDigits < 0 ==> r == Success(0)
    ensures 0 <= codeDigits <= 9 ==> r == Success(Pow10(codeDigits))
  {
    if codeDigits < 0 then Success(0)
    else if codeDigits <= 9 then Success(Pow10(codeDigits))
    else Failure(OverflowException)
  }

  /** `hash.Last() & 0x0F`: the low nibble of the last byte. */
  function Offset(hash: seq<Byte>): (offset: nat)
    requires |hash| > 0
    ensures offset < 16
    ensures offset == hash[|hash| - 1] as int % 16
  {
    (hash[|hash| - 1] & 0x0F) as nat
  }

  /** The 31-bit value of four bytes: their big-endian value with the sign
      bit cleared, which is never negative. */
  function BinaryCode(b0: Byte, b1: Byte, b2: Byte, b3: Byte): (v: nat)
    ensures v < 0x8000_0000
    ensures v == FromBigEndian([b0, b1, b2, b3]) % 0x8000_0000
  {
    FourBytes(b0, b1, b2, b3);
    ClearTopBit(b0 as int, b1 as int * 0x1_0000 + b2 as int * 0x100 + b3 as int);
    JoinBytes(b0, b1, b2, b3) as int
  }

  lemma FourBytes(b0: Byte, b1: Byte, b2: Byte, b3: Byte)
    ensures FromBigEndian([b0, b1, b2, b3]) ==
      b0 as int * 0x100_0000 + b1 as int * 0x1_0000 + b2 as int * 0x100 + b3 as int
  {
    assert [b0] == [] + [b0];
    assert [b0, b1] == [b0] + [b1];
    assert [b0, b1, b2] == [b0, b1] + [b2];
    assert [b0, b1, b2, b3] == [b0, b1, b2] + [b3];
    FromBigEndianSnoc([], b0);
    FromBigEndianSnoc([b0], b1);
    FromBigEndianSnoc([b0, b1], b2);
    FromBigEndianSnoc([b0, b1, b2], b3);
  }

  /** Appending a byte shifts the value up by eight bits. */
  lemma FromBigEndianSnoc(s: seq<Byte>, b: Byte)
    ensures FromBigEndian(s + [b]) == FromBigEndian(s) * 256 + b as int
  {
    assert (s + [b])[..|s|] == s;
  }

  lemma ClearTopBit(x0: int, low: int)
    requires 0 <= x0 < 256 && 0 <= low < 0x100_0000
    ensures (x0 * 0x100_0000 + low) % 0x8000_0000 == (x0 % 128) * 0x100_0000 + low
  {
    assert x0 * 0x100_0000 + low == (x0 / 128) * 0x8000_0000 + ((x0 % 128) * 0x100_0000 + low);
  }

  /** Dynamic truncation (section 5.3 of RFC 4226): the 31-bit value of the
      four bytes at the offset the last byte names. `Last()` throws on an
      empty hash, and an offset too close to the end indexes past it. */
  function DynamicTruncation(hash: seq<Byte>): (r: Result<nat>)
    ensures r == Failure(InvalidOperationException) <==> |hash| == 0
    ensures r == Failure(IndexOutOfRangeException) <==>
      |hash| > 0 && hash[|hash| - 1] as int % 16 + 4 > |hash|
    ensures r.Success? <==> |hash| > 0 && hash[|hash| - 1] as int % 16 + 4 <= |hash|
    ensures r.Success? ==> r.value < 0x8000_0000
    ensures r.Success? ==>
      var offset := hash[|hash| - 1] as int % 16;
      offset + 4 <= |hash| && r.value == FromBigEndian(hash[offset..offset + 4]) % 0x8000_0000
    ensures |hash| >= 19 ==> r.Success?
  {
    if |hash| == 0 then Failure(InvalidOperationException)
    else
      var offset := Offset(hash);
      if offset + 3 >= |hash| then Failure(IndexOutOfRangeException)
      else
        FourByteSlice(hash, offset);
        Success(BinaryCode(hash[offset], hash[offset + 1], hash[offset + 2], hash[offset + 3]))
  }

  lemma FourByteSlice(s: seq<Byte>, i: nat)
    requires i + 4 <= |s|
    ensures s[i..i + 4] == [s[i], s[i + 1], s[i + 2], s[i + 3]]
  {
  }

  /** Truncation followed by `% divisor`. */
  function OneTimePassword(hash: seq<Byte>, divisor: nat): (r: Result<nat>)
    ensures r.Success? <==> DynamicTruncation(hash).Success? && divisor > 0
    ensures DynamicTruncation(hash).Success? && divisor == 0 ==> r == Failure(DivideByZeroException)
    ensures DynamicTruncation(hash).Failure? ==> r == DynamicTruncation(hash)
    ensures r.Success? ==> r.value < divisor && r.value == DynamicTruncation(hash).value % divisor
  {
    var binary :- DynamicTruncation(hash);
    if divisor == 0 then Failure(DivideByZeroException) else Success(binary % divisor)
  }

  /** Which digest lengths truncation always succeeds on: all but HMAC-MD5's
      16 bytes, where a last byte whose low nibble is 13 or more reaches past
      the end. */
  lemma OffsetFitsDigest(algorithm: HmacAlgorithm)
    ensures (forall hash :: |hash| == DigestLength(algorithm) ==> DynamicTruncation(hash).Success?)
      <==> algorithm != HMACMD5
  {
    if algorithm == HMACMD5 {
      var hash := seq(16, _ => 0x0D as Byte);
      assert DynamicTruncation(hash).Failure?;
    }
  }

  /** On a 16-byte digest truncation fails exactly when the offset exceeds 12. */
  lemma Md5Truncation(hash: seq<Byte>)
    requires |hash| == 16
    ensures DynamicTruncation(hash).Failure? <==> hash[15] as int % 16 >= 13
  {
  }

  /** The worked example of section 5.4 of RFC 4226. */
  lemma Rfc4226Example()
    ensures
      var hash: seq<Byte> := [
        0x1f, 0x86, 0x98, 0x69, 0x0e, 0x02, 0xca, 0x16, 0x61, 0x85,
        0x50, 0xef, 0x7f, 0x19, 0xda, 0x8e, 0x94, 0x5b, 0x55, 0x5a];
      && Offset(hash) == 10
      && DynamicTruncation(hash) == Success(0x50ef7f19)
      && OneTimePassword(hash, Pow10(6)) == Success(872921)
  {
  }

  // ---------------------------------------------------------------------
  // GenerateTOTP
  // ---------------------------------------------------------------------

  /** GenerateTOTP(basicTime, key, timeStep, codeDigits, algorithm). The
      checks happen in the order the code runs: the divisor, the counter,
      the keyed hash, the truncation, the final `%`. */
  function GenerateTotp(hmac: HmacFunction, now: Instant, basicTime: Instant, key: seq<Byte>,
                        timeStep: Int32 := 30, codeDigits: Int32 := 6, algorithm: HmacAlgorithm := HMACSHA1): (r: Result<nat>)
    ensures codeDigits > 9 ==> r == Failure(OverflowException)
    ensures codeDigits <= 9 && timeStep == 0 ==> r == Failure(DivideByZeroException)
    ensures codeDigits <= 9 && timeStep != 0 ==>
      var hash := hmac(algorithm, key, CounterMessage(GetTimestamp(now, basicTime, timeStep).value));
      && (DynamicTruncation(hash).Failure? ==> r == DynamicTruncation(hash))
      && (codeDigits < 0 && DynamicTruncation(hash).Success? ==> r == Failure(DivideByZeroException))
      && (r.Success? <==> 0 <= codeDigits && DynamicTruncation(hash).Success?)
      && (r.Success? ==> r.value == DynamicTruncation(hash).value % Pow10(codeDigits))
    ensures r.Success? ==> 0 <= codeDigits <= 9 && timeStep != 0 && r.value < Pow10(codeDigits)
  {
    var divisor :- Divisor(codeDigits);
    var counter :- GetTimestamp(now, basicTime, timeStep);
    var hash := hmac(algorithm, key, CounterMessage(counter));
    OneTimePassword(hash, divisor)
  }

  /** GenerateTOTP(key, timeStep, codeDigits, algorithm), measured from 1970-01-01. */
  function GenerateTotpSinceUnixEpoch(hmac: HmacFunction, now: Instant, key: seq<Byte>,
                                      timeStep: Int32 := 30, codeDigits: Int32 := 6, algorithm: HmacAlgorithm := HMACSHA1)
    : (r: Result<nat>)
    ensures r == GenerateTotp(hmac, now, UnixEpoch, key, timeStep, codeDigits, algorithm)
  {
    var divisor :- Divisor(codeDigits);
    var counter :- GetTimestampSinceUnixEpoch(now, timeStep);
    var hash := hmac(algorithm, key, CounterMessage(counter));
    OneTimePassword(hash, divisor)
  }

  /** With a positive step, an instant at or after `basicTime`, 0 to 9 digits
      and any algorithm but HMAC-MD5, a code is always produced: the
      truncation of the keyed hash of the big-endian floor-divided counter,
      reduced below 10^codeDigits. */
  lemma GenerateTotpSucceeds(hmac: HmacFunction, now: Instant, basicTime: Instant, key: seq<Byte>,
                             timeStep: Int32, codeDigits: Int32, algorithm: HmacAlgorithm)
    requires ConformingHmac(hmac)
    requires basicTime <= now && timeStep > 0 && 0 <= codeDigits <= 9 && algorithm != HMACMD5
    ensures
      var hash := hmac(algorithm, key, CounterMessage((now - basicTime) / timeStep));
      && DynamicTruncation(hash).Success?
      && GenerateTotp(hmac, now, basicTime, key, timeStep, codeDigits, algorithm)
         == Success(DynamicTruncation(hash).value % Pow10(codeDigits))
  {
    var hash := hmac(algorithm, key, CounterMessage((now - basicTime) / timeStep));
    assert |hash| == DigestLength(algorithm);
  }

  /** Called with its defaults from 1970-01-01 on, the generator gives the
      6-digit HMAC-SHA1 code of the 30-second counter. */
  lemma DefaultsGiveSixDigitSha1Code(hmac: HmacFunction, now: Instant, key: seq<Byte>)
    requires ConformingHmac(hmac)
    requires UnixEpoch <= now
    ensures
      var hash := hmac(HMACSHA1, key, CounterMessage((now - UnixEpoch) / 30));
      && DynamicTruncation(hash).Success?
      && GenerateTotpSinceUnixEpoch(hmac, now, key) == Success(DynamicTruncation(hash).value % 1_000_000)
  {
    GenerateTotpSucceeds(hmac, now, UnixEpoch, key, 30, 6, HMACSHA1);
    assert Pow10(6) == 1_000_000;
  }

  /** With HMAC-MD5 and otherwise valid inputs the code fails with an index
      out of range exactly when the digest's last low nibble is 13 or more. */
  lemma GenerateTotpMd5(hmac: HmacFunction, now: Instant, basicTime: Instant, key: seq<Byte>,
                        timeStep: Int32, codeDigits: Int32)
    requires ConformingHmac(hmac)
    requires timeStep != 0 && 0 <= codeDigits <= 9
    ensures
      var hash := hmac(HMACMD5, key, CounterMessage(GetTimestamp(now, basicTime, timeStep).value));
      && |hash| == 16
      && ((GenerateTotp(hmac, now, basicTime, key, timeStep, codeDigits, HMACMD5)
           == Failure(IndexOutOfRangeException)) <==> hash[15] as int % 16 >= 13)
  {
    var hash := hmac(HMACMD5, key, CounterMessage(GetTimestamp(now, basicTime, timeStep).value));
    assert |hash| == DigestLength(HMACMD5);
    Md5Truncation(hash);
  }

  /** Zero digits always give the code 0. */
  lemma ZeroDigitsGiveZero(hmac: HmacFunction, now: Instant, basicTime: Instant, key: seq<Byte>,
                           timeStep: Int32, algorithm: HmacAlgorithm)
    ensures var r := GenerateTotp(hmac, now, basicTime, key, timeStep, 0, algorithm);
      r.Success? ==> r.value == 0
  {
  }
}
