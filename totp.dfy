/**
 * Time-based one-time codes (RFC 6238 section 4) over HOTP (RFC 4226 section 5.3), as
 * `generate_totp_code` and `verify_totp` compute them.
 */
module Totp {
  import opened Wrappers
  import opened Crypto
  import opened Bits
  import opened DecimalText

  /**
   * What code generation raises: `struct.error` when the counter does not fit an unsigned
   * 64-bit integer; `binascii.Error`, `ValueError` or `TypeError` when `base64.b32decode`
   * cannot decode the stored secret (not base32 text, non-ASCII text, or `None`).
   */
  datatype TotpError = CounterOutOfRange | SecretNotDecodable

  /** The default `time_step`, and the only one `verify_totp` uses. */
  const DefaultTimeStep: nat := 30

  /** 2^64: the first counter `struct.pack('>Q', ...)` refuses. */
  const Uint64Limit: nat := 0x1_0000_0000_0000_0000

  /** `time.time() // time_step` for a clock read in whole seconds: the number of the window `now` is in. */
  function TimeCounter(now: nat, timeStep: nat): (counter: nat)
    requires timeStep > 0
    ensures timeStep * counter <= now < timeStep * (counter + 1)
  {
    now / timeStep
  }

  /** The `width` low bytes of `n`, most significant first. */
  function ToBigEndian(n: nat, width: nat): (bytes: seq<Byte>)
    ensures |bytes| == width
  {
    if width == 0 then [] else ToBigEndian(n / 256, width - 1) + [n % 256]
  }

  /** The unsigned integer a byte string denotes, most significant byte first. */
  function FromBigEndian(bytes: seq<Byte>): (n: nat)
    ensures n < Pow(256, |bytes|)
  {
    if bytes == [] then 0 else 256 * FromBigEndian(bytes[..|bytes| - 1]) + bytes[|bytes| - 1]
  }

  /** Encoding a number that fits in `width` bytes and decoding it gives the number back. */
  lemma {:induction false} BigEndianRoundTrip(n: nat, width: nat)
    requires n < Pow(256, width)
    ensures FromBigEndian(ToBigEndian(n, width)) == n
  {
    if width > 0 {
      var bytes := ToBigEndian(n, width);
      assert bytes[..width - 1] == ToBigEndian(n / 256, width - 1);
      BigEndianRoundTrip(n / 256, width - 1);
    }
  }

  /** Decoding a byte string and encoding it at the same width gives the bytes back. */
  lemma {:induction false} BigEndianRoundTripBytes(bytes: seq<Byte>)
    ensures ToBigEndian(FromBigEndian(bytes), |bytes|) == bytes
  {
    if bytes != [] {
      var k := |bytes| - 1;
      DivModUnique(FromBigEndian(bytes), 256, FromBigEndian(bytes[..k]), bytes[k]);
      BigEndianRoundTripBytes(bytes[..k]);
      assert bytes == bytes[..k] + [bytes[k]];
    }
  }

  /** `struct.pack('>Q', counter)`: eight big-endian bytes, or `struct.error` past 2^64 - 1. */
  function PackCounter(counter: nat): (r: Result<seq<Byte>, TotpError>)
    ensures r.Success? <==> counter < Uint64Limit
    ensures r.Failure? ==> r.error == CounterOutOfRange
    ensures r.Success? ==> |r.value| == 8 && FromBigEndian(r.value) == counter
  {
    if counter < Uint64Limit then
      assert Pow(256, 8) == Uint64Limit;
      BigEndianRoundTrip(counter, 8);
      Success(ToBigEndian(counter, 8))
    else
      Failure(CounterOutOfRange)
  }

  /** `h[-1] & 0x0F`: where the four bytes of the dynamic binary code start. */
  function TruncationOffset(mac: seq<Byte>): (offset: nat)
    requires |mac| == 20
    ensures offset == mac[19] % 16 && offset + 3 < |mac|
  {
    ByteMasks(mac[|mac| - 1]);
    BitAnd(mac[|mac| - 1], 0x0F)
  }

  /**
   * The dynamic binary code, computed with the masks, shifts and ors of `generate_totp_code`.
   * It is RFC 4226's truncation: the four bytes at the offset, read big-endian, keeping the
   * last 31 bits.
   */
  function DynamicTruncate(mac: seq<Byte>): (binary: nat)
    requires |mac| == 20
    ensures binary < 0x8000_0000
    ensures binary == FromBigEndian(mac[mac[19] % 16..mac[19] % 16 + 4]) % 0x8000_0000
  {
    var offset := TruncationOffset(mac);
    assert mac[offset..offset + 4] == [mac[offset], mac[offset + 1], mac[offset + 2], mac[offset + 3]];
    TruncatedWord(mac[offset], mac[offset + 1], mac[offset + 2], mac[offset + 3]);
    BitOr(BitOr(BitOr(ShiftLeft(BitAnd(mac[offset], 0x7F), 24),
                      ShiftLeft(BitAnd(mac[offset + 1], 0xFF), 16)),
                ShiftLeft(BitAnd(mac[offset + 2], 0xFF), 8)),
          BitAnd(mac[offset + 3], 0xFF))
  }

  /**
   * RFC 4226 section 5.3: take the four bytes at the offset, keep the last 31 bits of the
   * number they denote, and reduce modulo 10^6.
   */
  function HotpValue(hmac: HmacSha1, key: seq<Byte>, counter: nat): nat
    requires counter < Uint64Limit
  {
    var mac := hmac(key, ToBigEndian(counter, 8));
    var offset := mac[19] % 16;
    (FromBigEndian(mac[offset..offset + 4]) % 0x8000_0000) % 1000000
  }

  /** Shifting four byte values into place and or-ing them adds them up in base 256. */
  lemma OrBytes(a: nat, b: nat, c: nat, d: nat)
    requires a < 256 && b < 256 && c < 256 && d < 256
    ensures BitOr(BitOr(BitOr(ShiftLeft(a, 24), ShiftLeft(b, 16)), ShiftLeft(c, 8)), d)
         == a * 0x100_0000 + b * 0x1_0000 + c * 256 + d
  {
    var ab := a * 256 + b;
    var abc := ab * 256 + c;
    PowersOfTwo();
    assert ShiftLeft(b, 16) < Pow(2, 24);
    OrShifted(a, 24, ShiftLeft(b, 16));
    assert ShiftLeft(a, 24) + ShiftLeft(b, 16) == ShiftLeft(ab, 16);
    assert ShiftLeft(c, 8) < Pow(2, 16);
    OrShifted(ab, 16, ShiftLeft(c, 8));
    assert ShiftLeft(ab, 16) + ShiftLeft(c, 8) == ShiftLeft(abc, 8);
    OrShifted(abc, 8, d);
  }

  /** Four bytes, most significant first, denote their base-256 sum. */
  lemma FromBigEndianFour(word: seq<Byte>)
    requires |word| == 4
    ensures FromBigEndian(word) == word[0] as int * 0x100_0000 + word[1] as int * 0x1_0000 + word[2] as int * 256 + word[3] as int
  {
    assert word[..3][..2][..1] == [word[0]];
    assert word[..3][..2] == [word[0], word[1]];
    assert word[..3] == [word[0], word[1], word[2]];
    assert FromBigEndian([word[0]]) == word[0] as int;
    assert FromBigEndian([word[0], word[1]]) == 256 * word[0] as int + word[1] as int;
    assert FromBigEndian([word[0], word[1], word[2]]) == 256 * (256 * word[0] as int + word[1] as int) + word[2] as int;
  }

  /** The bit operations of `generate_totp_code` mask the top bit of the first byte and add the bytes up in base 256. */
  lemma MaskedBytes(a: Byte, b: Byte, c: Byte, d: Byte)
    ensures BitOr(BitOr(BitOr(ShiftLeft(BitAnd(a, 0x7F), 24), ShiftLeft(BitAnd(b, 0xFF), 16)),
                        ShiftLeft(BitAnd(c, 0xFF), 8)),
                  BitAnd(d, 0xFF))
         == (a % 128) * 0x100_0000 + b as int * 0x1_0000 + c as int * 256 + d as int
  {
    ByteMasks(a);
    ByteMasks(b);
    ByteMasks(c);
    ByteMasks(d);
    OrBytes(a % 128, b, c, d);
  }

  /** Keeping the last 31 bits of a 32-bit number clears the top bit of its first byte. */
  lemma LastThirtyOneBits(a: nat, rest: nat)
    requires a < 256 && rest < 0x100_0000
    ensures (a * 0x100_0000 + rest) % 0x8000_0000 == (a % 128) * 0x100_0000 + rest
  {
    assert a * 0x100_0000 + rest == 0x8000_0000 * (a / 128) + ((a % 128) * 0x100_0000 + rest);
    DivModUnique(a * 0x100_0000 + rest, 0x8000_0000, a / 128, (a % 128) * 0x100_0000 + rest);
  }

  /** The last 31 bits of a four-byte big-endian value clear the top bit of its first byte. */
  lemma WordLastBits(a: Byte, b: Byte, c: Byte, d: Byte)
    ensures FromBigEndian([a, b, c, d]) % 0x8000_0000
         == (a % 128) * 0x100_0000 + b as int * 0x1_0000 + c as int * 256 + d as int
  {
    var word: seq<Byte> := [a, b, c, d];
    var rest := b as int * 0x1_0000 + c as int * 256 + d as int;
    FromBigEndianFour(word);
    assert FromBigEndian(word) == a as int * 0x100_0000 + rest;
    LastThirtyOneBits(a, rest);
  }

  /** The masks, shifts and ors over four bytes give the last 31 bits of their big-endian value. */
  lemma TruncatedWord(a: Byte, b: Byte, c: Byte, d: Byte)
    ensures BitOr(BitOr(BitOr(ShiftLeft(BitAnd(a, 0x7F), 24), ShiftLeft(BitAnd(b, 0xFF), 16)),
                        ShiftLeft(BitAnd(c, 0xFF), 8)),
                  BitAnd(d, 0xFF))
         == FromBigEndian([a, b, c, d]) % 0x8000_0000
  {
    MaskedBytes(a, b, c, d);
    WordLastBits(a, b, c, d);
  }

  predicate IsSixDigitCode(s: string) {
    |s| == 6 && AllDigits(s)
  }

  /** `str(binary % 1000000).zfill(6)` */
  function SixDigitCode(binary: nat): (code: string)
    ensures IsSixDigitCode(code) && DigitsValue(code) == binary % 1000000
  {
    var text := Str(binary % 1000000);
    assert Pow(10, 6) == 1000000;
    StrLength(binary % 1000000, 6);
    LeadingZeros(6 - |text|, text);
    ZFill(text, 6)
  }

  /** A string is the code of `binary` exactly when it is six digits denoting `binary % 10^6`. */
  lemma SixDigitCodeMatches(binary: nat, code: string)
    ensures code == SixDigitCode(binary) <==> IsSixDigitCode(code) && DigitsValue(code) == binary % 1000000
  {
    if IsSixDigitCode(code) && DigitsValue(code) == binary % 1000000 {
      DigitsValueInjective(code, SixDigitCode(binary));
    }
  }

  /** `generate_totp_code(secret, time_step)` with the clock reading `now`. */
  function GenerateTotpCode(crypto: Primitives, secret: string, now: nat, timeStep: nat): (r: Result<string, TotpError>)
    requires timeStep > 0
    ensures r.Failure? <==> TimeCounter(now, timeStep) >= Uint64Limit || crypto.base32.decode(secret).None?
    ensures r.Failure? ==> r.error == if TimeCounter(now, timeStep) >= Uint64Limit then CounterOutOfRange else SecretNotDecodable
    ensures r.Success? ==> IsSixDigitCode(r.value)
    ensures r.Success? ==> DigitsValue(r.value) == HotpValue(crypto.hmacSha1, crypto.base32.decode(secret).value, TimeCounter(now, timeStep))
  {
    var counter := TimeCounter(now, timeStep);
    match PackCounter(counter)
    case Failure(e) => Failure(e)
    case Success(counterBytes) =>
      BigEndianRoundTripBytes(counterBytes);
      match crypto.base32.decode(secret)
      case None => Failure(SecretNotDecodable)
      case Some(key) =>
        var mac := crypto.hmacSha1(key, counterBytes);
        Success(SixDigitCode(DynamicTruncate(mac)))
  }

  /**
   * `verify_totp(secret, code)`: regenerates the code of the current 30-second window and
   * compares it with `code` as strings.
   */
  function VerifyTotp(crypto: Primitives, secret: string, code: string, now: nat): (r: Result<bool, TotpError>)
    ensures r.Failure? <==> TimeCounter(now, DefaultTimeStep) >= Uint64Limit || crypto.base32.decode(secret).None?
    ensures r.Success? ==>
      (r.value <==> IsSixDigitCode(code) &&
                    DigitsValue(code) == HotpValue(crypto.hmacSha1, crypto.base32.decode(secret).value, TimeCounter(now, DefaultTimeStep)))
  {
    match GenerateTotpCode(crypto, secret, now, DefaultTimeStep)
    case Failure(e) => Failure(e)
    case Success(expected) =>
      assert IsSixDigitCode(code) && DigitsValue(code) == DigitsValue(expected) ==> code == expected by {
        if IsSixDigitCode(code) && DigitsValue(code) == DigitsValue(expected) {
          DigitsValueInjective(code, expected);
        }
      }
      Success(expected == code)
  }

  /** Two clock readings in the same window give the same code. */
  lemma SameWindowSameCode(crypto: Primitives, secret: string, timeStep: nat, window: nat, now1: nat, now2: nat)
    requires timeStep > 0
    requires timeStep * window <= now1 < timeStep * (window + 1)
    requires timeStep * window <= now2 < timeStep * (window + 1)
    ensures GenerateTotpCode(crypto, secret, now1, timeStep) == GenerateTotpCode(crypto, secret, now2, timeStep)
  {
    DivModUnique(now1, timeStep, window, now1 - timeStep * window);
    DivModUnique(now2, timeStep, window, now2 - timeStep * window);
  }
}
