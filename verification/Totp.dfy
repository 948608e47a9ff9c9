/** Time-based one-time passwords: truncating a 20-byte MAC to six digits (section 5.3 of RFC 4226)
    and accepting the codes of a window of time steps (section 5.2 of RFC 6238). The MAC itself and
    the base32 decoder, upper-casing included, are parameters. */
module Totp {
  import opened Options
  import opened Bytes
  import opened Texts

  type Hash = h: Bytes | |h| == 20 witness seq(20, _ => 0)
  type Mac = (Bytes, Bytes) -> Hash
  type Decoder = string -> Option<Bytes>

  const PERIOD: int := 30
  const CODES: int := 1_000_000
  const UINT64: int := 0x1_0000_0000_0000_0000

  // ----- Counters ----------------------------------------------------------------------------------

  /** Go's integer division truncates toward zero. */
  function Step(at: int): int {
    if at >= 0 then at / PERIOD else -(-at / PERIOD)
  }

  /** A step is thirty seconds; before the epoch the division rounds toward it, so the step around it is
      almost twice as long. */
  lemma StepsAreThirtySeconds(at: int)
    ensures at >= 0 ==> 30 * Step(at) <= at < 30 * (Step(at) + 1)
    ensures at <= 0 ==> 30 * (Step(at) - 1) < at <= 30 * Step(at)
  {
  }

  /** `width` bytes of `n`, most significant first. */
  function BigEndian(n: nat, width: nat): Bytes {
    if width == 0 then [] else BigEndian(n / 256, width - 1) + [n % 256]
  }

  function FromBigEndian(b: Bytes): nat {
    if b == [] then 0 else
      var last: int := b[|b| - 1];
      256 * FromBigEndian(b[..|b| - 1]) + last
  }

  function Power(base: nat, e: nat): nat {
    if e == 0 then 1 else base * Power(base, e - 1)
  }

  lemma {:induction false} BigEndianRoundTrip(n: nat, width: nat)
    ensures |BigEndian(n, width)| == width
    ensures n < Power(256, width) ==> FromBigEndian(BigEndian(n, width)) == n
  {
    if width == 0 {
    } else {
      BigEndianRoundTrip(n / 256, width - 1);
      assert BigEndian(n, width)[..width - 1] == BigEndian(n / 256, width - 1);
    }
  }

  /** The signed counter goes to the MAC as its two's complement image. */
  function Message(counter: int): Bytes {
    BigEndian(counter % UINT64, 8)
  }

  lemma EightBytes()
    ensures Power(256, 8) == UINT64
  {
    assert Power(256, 4) == 0x1_0000_0000;
    assert Power(256, 6) == 256 * (256 * Power(256, 4));
    assert Power(256, 8) == 256 * (256 * Power(256, 6));
  }

  lemma MessageReadsBack(c: int)
    requires -UINT64 / 2 <= c < UINT64 / 2
    ensures |Message(c)| == 8 && FromBigEndian(Message(c)) == if c < 0 then c + UINT64 else c
  {
    EightBytes();
    BigEndianRoundTrip(c % UINT64, 8);
    assert c % UINT64 == if c < 0 then c + UINT64 else c;
  }

  /** Different 64-bit counters are different messages, negative ones included. */
  lemma MessagesAreDistinct(c: int, d: int)
    requires -UINT64 / 2 <= c < UINT64 / 2 && -UINT64 / 2 <= d < UINT64 / 2
    ensures |Message(c)| == 8
    ensures Message(c) == Message(d) ==> c == d
  {
    MessageReadsBack(c);
    MessageReadsBack(d);
  }

  // ----- Codes -------------------------------------------------------------------------------------

  /** Four bytes of the hash from the offset in its last nibble, without the sign bit. */
  function Truncate(hash: Hash): (value: nat)
    ensures value < 0x8000_0000
  {
    var offset := hash[|hash| - 1] % 16;
    FromBigEndian(hash[offset..offset + 4]) % 0x8000_0000
  }

  /** Masking the whole word is masking its first byte, as section 5.4 of RFC 4226 has it; the four
      bytes lie inside the hash whatever its last nibble. */
  lemma TruncateMasksTheFirstByte(hash: Hash)
    ensures hash[19] % 16 + 3 < |hash|
    ensures var o := hash[19] % 16;
            var b0: int, b1: int, b2: int, b3: int := hash[o], hash[o + 1], hash[o + 2], hash[o + 3];
            Truncate(hash) == b0 % 128 * 0x100_0000 + b1 * 0x1_0000 + b2 * 0x100 + b3
  {
    var o := hash[19] % 16;
    var word: Bytes := hash[o..o + 4];
    var b0: int, b1: int, b2: int, b3: int := hash[o], hash[o + 1], hash[o + 2], hash[o + 3];
    assert FromBigEndian(word) == b0 * 0x100_0000 + b1 * 0x1_0000 + b2 * 0x100 + b3 by {
      assert word[..3][..2] == word[..2] && word[..2][..1] == word[..1] && word[..1][..0] == [];
      assert FromBigEndian(word[..1]) == b0;
      assert FromBigEndian(word[..2]) == 256 * FromBigEndian(word[..1]) + b1;
      assert FromBigEndian(word[..3]) == 256 * FromBigEndian(word[..2]) + b2;
    }
    assert b0 == 128 * (b0 / 128) + b0 % 128;
  }

  function Digit(n: nat): char {
    (n % 10) as char + '0'
  }

  /** `%0<width>d`, for numbers of at most that many digits. */
  function Digits(n: nat, width: nat): string {
    if width == 0 then "" else Digits(n / 10, width - 1) + [Digit(n)]
  }

  predicate IsDigit(c: char) {
    '0' <= c <= '9'
  }

  function Number(s: string): nat
    requires forall c :: c in s ==> IsDigit(c)
  {
    if s == "" then 0 else
      var last := s[|s| - 1];
      assert last in s && IsDigit(last);
      10 * Number(s[..|s| - 1]) + (last as int - '0' as int)
  }

  lemma {:induction false} DigitsReadBack(n: nat, width: nat)
    ensures |Digits(n, width)| == width && forall c :: c in Digits(n, width) ==> IsDigit(c)
    ensures n < Power(10, width) ==> Number(Digits(n, width)) == n
  {
    if width == 0 {
    } else {
      DigitsReadBack(n / 10, width - 1);
      assert Digits(n, width)[..width - 1] == Digits(n / 10, width - 1);
    }
  }

  function Generate(mac: Mac, secret: Bytes, counter: int): string {
    Digits(Truncate(mac(secret, Message(counter))) % CODES, 6)
  }

  /** Every code has exactly six digits, and as a number it is the truncated MAC modulo a million. */
  lemma CodesAreSixDigits(mac: Mac, secret: Bytes, counter: int)
    ensures var code := Generate(mac, secret, counter);
            && |code| == 6 && (forall c :: c in code ==> IsDigit(c))
            && Number(code) == Truncate(mac(secret, Message(counter))) % 1_000_000
  {
    assert Power(10, 6) == CODES;
    DigitsReadBack(Truncate(mac(secret, Message(counter))) % CODES, 6);
  }

  /** The first value of appendix D of RFC 4226: the MAC of counter 0 and the code it gives. */
  const RFC_HASH: Hash := [
    0xcc, 0x93, 0xcf, 0x18, 0x50, 0x8d, 0x94, 0x93, 0x4c, 0x64,
    0xb6, 0x5d, 0x8b, 0xa7, 0x66, 0x7f, 0xb7, 0xcd, 0xe4, 0xb0
  ]

  lemma RfcTruncates()
    ensures Truncate(RFC_HASH) == 1284755224
  {
    TruncateMasksTheFirstByte(RFC_HASH);
    var h := RFC_HASH;
    assert h[19] == 0xb0 && h[0] == 0xcc && h[1] == 0x93 && h[2] == 0xcf && h[3] == 0x18;
  }

  lemma RfcDigits()
    ensures Digits(755224, 6) == "755224"
  {
    SixDigits(755224);
    assert Digit(7) == '7' && Digit(75) == '5' && Digit(755) == '5' && Digit(7552) == '2' && Digit(75522) == '2'
           && Digit(755224) == '4';
  }

  lemma RfcValue(secret: Bytes)
    ensures Generate((_, _) => RFC_HASH, secret, 0) == "755224"
  {
    RfcTruncates();
    RfcDigits();
    assert 1284755224 % CODES == 755224;
  }

  /** Most significant digit first, with leading zeros. */
  lemma SixDigits(n: nat)
    ensures Digits(n, 6) ==
            [Digit(n / 100_000), Digit(n / 10_000), Digit(n / 1000), Digit(n / 100), Digit(n / 10), Digit(n)]
  {
    assert n / 10 / 10 == n / 100 && n / 100 / 10 == n / 1000;
    assert n / 1000 / 10 == n / 10_000 && n / 10_000 / 10 == n / 100_000;
    assert Digits(n / 100_000, 1) == [Digit(n / 100_000)];
    assert Digits(n / 10_000, 2) == Digits(n / 100_000, 1) + [Digit(n / 10_000)];
    assert Digits(n / 1000, 3) == Digits(n / 10_000, 2) + [Digit(n / 1000)];
    assert Digits(n / 100, 4) == Digits(n / 1000, 3) + [Digit(n / 100)];
    assert Digits(n / 10, 5) == Digits(n / 100, 4) + [Digit(n / 10)];
  }

  // ----- Verification --------------------------------------------------------------------------------

  /** The decoded secret of a stored one. */
  function Key(decode: Decoder, secret: string): Option<Bytes> {
    decode(Trim(secret))
  }

  /** White space around a stored secret does not matter. */
  lemma SecretsMayBePadded(decode: Decoder, before: string, secret: string, after: string)
    requires AllSpace(before) && AllSpace(after)
    requires secret != "" && !IsSpace(secret[0]) && !IsSpace(secret[|secret| - 1])
    ensures Key(decode, before + secret + after) == decode(secret)
  {
    TrimRemovesPadding(before, secret, after);
  }

  /** The trimmed code is one of the 2 * window + 1 codes around the current step. */
  ghost predicate Accepts(mac: Mac, decode: Decoder, secret: string, code: string, at: int, window: int) {
    Key(decode, secret).Some? &&
    exists c :: Step(at) - window <= c <= Step(at) + window && Generate(mac, Key(decode, secret).value, c) == Trim(code)
  }

  method VerifyTOTPCode(mac: Mac, decode: Decoder, secret: string, code: string, at: int, window: int)
    returns (ok: bool)
    ensures ok <==> Accepts(mac, decode, secret, code, at, window)
  {
    var trimmed := Trim(code);
    if ByteLength(trimmed) != 6 {
      forall raw, c | Generate(mac, raw, c) == trimmed ensures false {
        CodesAreSixDigits(mac, raw, c);
        assert forall i :: 0 <= i < |trimmed| ==> trimmed[i] in trimmed && IsDigit(trimmed[i]);
        AsciiByteLength(trimmed);
      }
      return false;
    }
    var raw := Key(decode, secret);
    if raw.None? {
      return false;
    }
    var step := Step(at);
    var offset := -window;
    while offset <= window
      invariant offset >= -window
      invariant forall c :: step - window <= c < step + offset ==> Generate(mac, raw.value, c) != trimmed
      decreases window - offset
    {
      if Generate(mac, raw.value, step + offset) == trimmed {
        return true;
      }
      offset := offset + 1;
    }
    return false;
  }

  /** Steps of nearby instants are near, on both sides of the epoch. */
  lemma StepsStayClose(t: int, u: int, window: nat)
    requires u - PERIOD * window <= t <= u + PERIOD * window
    ensures Step(u) - window <= Step(t) <= Step(u) + window
  {
  }

  /** A code generated at `t`, typed with any white space around it, verifies at every instant within
      `window` periods of `t`. */
  lemma FreshCodesVerify(mac: Mac, decode: Decoder, secret: string, t: int, u: int, window: nat,
                         before: string, after: string)
    requires Key(decode, secret).Some?
    requires u - PERIOD * window <= t <= u + PERIOD * window
    requires AllSpace(before) && AllSpace(after)
    ensures Accepts(mac, decode, secret, before + Generate(mac, Key(decode, secret).value, Step(t)) + after, u, window)
  {
    var code := Generate(mac, Key(decode, secret).value, Step(t));
    CodesAreSixDigits(mac, Key(decode, secret).value, Step(t));
    assert IsDigit(code[0]) && IsDigit(code[5]);
    TrimRemovesPadding(before, code, after);
    StepsStayClose(t, u, window);
  }

  /** One period more and the step of `t` is outside the window, so its code verifies only by being
      equal to the code of another step: exactly when some step of the window collides with it. */
  lemma ExpiredCodesNeedACollision(mac: Mac, decode: Decoder, secret: string, t: nat, u: nat, window: nat)
    requires Key(decode, secret).Some?
    requires t <= u - PERIOD * (window + 1) || t >= u + PERIOD * (window + 1)
    ensures var key := Key(decode, secret).value;
            Accepts(mac, decode, secret, Generate(mac, key, Step(t)), u, window) <==>
            exists c :: c != Step(t) && Step(u) - window <= c <= Step(u) + window &&
                        Generate(mac, key, c) == Generate(mac, key, Step(t))
  {
    var key := Key(decode, secret).value;
    var code := Generate(mac, key, Step(t));
    CodesAreSixDigits(mac, key, Step(t));
    assert IsDigit(code[0]) && IsDigit(code[5]);
    TrimRemovesPadding("", code, "");
    assert "" + code + "" == code;
    assert Step(t) < Step(u) - window || Step(t) > Step(u) + window;
  }
}
