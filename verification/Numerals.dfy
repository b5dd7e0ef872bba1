/** The texts and byte strings the program stores: decimal integers, big-endian big integers and
    hexadecimal addresses. A Go int is an integer of 64 bits. */
module Numerals {
  import opened Bits

  type byte = x: nat | x < 256

  const MAX_INT: nat := 0x7FFF_FFFF_FFFF_FFFF
  const MIN_INT: int := -0x8000_0000_0000_0000
  const CHAR_ZERO: byte := 48
  const CHAR_NINE: byte := 57
  const CHAR_MINUS: byte := 45

  /** The value of a 64-bit signed addition or multiplication whose exact value is x. */
  function Wrap64(x: int): (r: int)
    ensures MIN_INT <= r <= MAX_INT
    ensures MIN_INT <= x <= MAX_INT ==> r == x
    ensures x == MAX_INT + 1 ==> r == MIN_INT
  {
    var m := x % TWO_64;
    if m > MAX_INT then m - TWO_64 else m
  }

  /** An int has 64 bits, and wrapping drops multiples of 2^64. */
  lemma Wrap64Meaning(x: int) returns (q: int)
    ensures x == Wrap64(x) + q * Pow2(64) && 0 - Pow2(63) <= Wrap64(x) < Pow2(63)
    ensures MIN_INT == 0 - Pow2(63) && MAX_INT == Pow2(63) - 1
  {
    TwoTo64();
    assert Pow2(64) == 2 * Pow2(63);
    q := x / TWO_64 + if x % TWO_64 > MAX_INT then 1 else 0;
  }

  /** Equal up to multiples of 2^64 means equal once wrapped. */
  lemma WrapsAlike(x: int, y: int, q: int)
    requires x == y + q * TWO_64
    ensures Wrap64(x) == Wrap64(y)
  {
  }

  /** An intermediate wrap makes no difference. */
  lemma WrapOnce(x: int, k: nat, d: int)
    ensures Wrap64(Wrap64(x) * k + d) == Wrap64(x * k + d)
  {
    TwoTo64();
    var q := Wrap64Meaning(x);
    assert x * k == Wrap64(x) * k + (q * k) * TWO_64;
    WrapsAlike(x * k + d, Wrap64(x) * k + d, q * k);
  }

  // ---------------------------------------------------------------- decimal integers

  /** The character of a decimal digit, or the one as far below '0'. */
  function DigitChar(d: nat, below: bool): byte
    requires d < 10
  {
    if below then CHAR_ZERO - d else CHAR_ZERO + d
  }

  function DigitText(m: nat, below: bool): seq<byte> {
    if m < 10 then [DigitChar(m, below)] else DigitText(m / 10, below) + [DigitChar(m % 10, below)]
  }

  function Decimal(n: nat): seq<byte> {
    DigitText(n, false)
  }

  /** The text of an int. Negating the smallest int gives the smallest int again, so its
      "digits" come out below '0'. */
  function IntText(x: int): seq<byte> {
    if x >= 0 then Decimal(x)
    else if x > MIN_INT then [CHAR_MINUS] + Decimal(-x)
    else [CHAR_MINUS] + DigitText(-x, true)
  }

  function Pow10(k: nat): nat {
    if k == 0 then 1 else 10 * Pow10(k - 1)
  }

  lemma {:induction false} DigitTextLength(m: nat, below: bool, k: nat)
    requires k > 0 && m < Pow10(k)
    ensures 1 <= |DigitText(m, below)| <= k
  {
    if m < 10 {
    } else {
      DigitTextLength(m / 10, below, k - 1);
    }
  }

  lemma IntFitsNineteenDigits(m: nat)
    requires m <= MAX_INT + 1
    ensures m < Pow10(19)
  {
    assert Pow10(7) == 1_00000_00;
    assert Pow10(13) == 1_000_000 * Pow10(7);
    assert Pow10(19) == 1_000_000 * Pow10(13);
  }

  /** Go's division and remainder truncate toward zero. */
  function TruncatedQuotient(x: int): int {
    if x >= 0 then x / 10 else -((-x) / 10)
  }

  function TruncatedRemainder(x: int): int {
    if x >= 0 then x % 10 else -((-x) % 10)
  }

  /** One digit of x, and what is left of it. */
  method SplitDigit(x: int, ghost m: nat, ghost below: bool) returns (c: byte, rest: int)
    requires x == (if below then 0 - m else m)
    ensures c == DigitChar(m % 10, below)
    ensures rest == if below then 0 - m / 10 else m / 10
  {
    c := CHAR_ZERO + TruncatedRemainder(x);
    rest := TruncatedQuotient(x);
  }

  /** The digit loop: fills the buffer from its end. */
  method WriteDigits(buf: array<byte>, n: int, ghost below: bool) returns (i: nat)
    requires buf.Length == 20 && (if below then MIN_INT <= n <= 0 else 0 <= n <= MAX_INT)
    modifies buf
    ensures 1 <= i <= 20 && buf[i..] == DigitText(if below then -n else n, below)
  {
    var x := n;
    i := buf.Length;
    ghost var m: nat := if below then -x else x;
    ghost var whole, written := DigitText(m, below), [];
    IntFitsNineteenDigits(m);
    DigitTextLength(m, below, 19);
    while true
      invariant x == if below then 0 - m else m
      invariant 1 <= |DigitText(m, below)| < i <= 20
      invariant whole == DigitText(m, below) + written && buf[i..] == written
      decreases m
    {
      i := i - 1;
      var c;
      c, x := SplitDigit(x, m, below);
      buf[i] := c;
      assert buf[i..] == [c] + buf[i + 1..];
      written := [c] + written;
      if x == 0 { return; }
      m := m / 10;
    }
  }

  /** The text is the int's, and it fits the 20-byte buffer. */
  method IntToString(n: int) returns (text: seq<byte>)
    requires MIN_INT <= n <= MAX_INT
    ensures text == IntText(n)
  {
    var x := n;
    var neg := x < 0;
    if neg { x := Wrap64(-x); }
    var buf := new byte[20](_ => 0);
    var i := WriteDigits(buf, x, x < 0);
    if neg {
      i := i - 1;
      buf[i] := CHAR_MINUS;
      assert buf[i..] == [CHAR_MINUS] + buf[i + 1..];
    }
    text := buf[i..];
  }

  predicate IsDigit(c: byte) {
    CHAR_ZERO <= c <= CHAR_NINE
  }

  /** The int read from the digits of a text; other characters are skipped. */
  function DecodedInt(text: seq<byte>): (n: int)
    ensures MIN_INT <= n <= MAX_INT
  {
    if text == [] then 0
    else
      var n, c := DecodedInt(text[..|text| - 1]), text[|text| - 1];
      if IsDigit(c) then Wrap64(n * 10 + (c - CHAR_ZERO)) else n
  }

  method DecodeInt(text: seq<byte>) returns (result: int)
    ensures result == DecodedInt(text)
  {
    result := 0;
    assert text[..0] == [];
    for k := 0 to |text|
      invariant result == DecodedInt(text[..k])
    {
      assert text[..k + 1][..k] == text[..k];
      if IsDigit(text[k]) {
        result := Wrap64(result * 10 + (text[k] - CHAR_ZERO));
      }
    }
    assert text[..|text|] == text;
  }

  /** Decoding undoes encoding, for every int that is not negative. */
  lemma {:induction false} DecodeDecimal(n: nat)
    requires n <= MAX_INT
    ensures DecodedInt(Decimal(n)) == n
  {
    var text := Decimal(n);
    if n >= 10 {
      DecodeDecimal(n / 10);
      assert text[..|text| - 1] == Decimal(n / 10);
    } else {
      assert text[..0] == [];
    }
  }

  lemma DecimalInjective(m: nat, n: nat)
    requires m <= MAX_INT && n <= MAX_INT && Decimal(m) == Decimal(n)
    ensures m == n
  {
    DecodeDecimal(m);
    DecodeDecimal(n);
  }

  // ---------------------------------------------------------------- positional notation

  /** The digits of n, most significant first, none for zero. */
  function Digits(n: nat, base: nat): (ds: seq<nat>)
    requires base >= 2
    ensures forall i | 0 <= i < |ds| :: ds[i] < base
  {
    if n == 0 then []
    else
      QuotientSmaller(n, base);
      Digits(n / base, base) + [n % base]
  }

  function FromDigits(ds: seq<nat>, base: nat): nat {
    if ds == [] then 0 else FromDigits(ds[..|ds| - 1], base) * base + ds[|ds| - 1]
  }

  lemma {:induction false} DigitsRoundTrip(n: nat, base: nat)
    requires base >= 2
    ensures FromDigits(Digits(n, base), base) == n
  {
    if n == 0 {
    } else {
      var q, r := n / base, n % base;
      QuotientSmaller(n, base);
      DigitsRoundTrip(q, base);
      RejoinDigits(n, base, q, r, Digits(q, base));
    }
  }

  lemma QuotientSmaller(n: nat, base: nat)
    requires n > 0 && base >= 2
    ensures 0 <= n / base < n
  {
    var q := n / base;
    DivModSum(n, base);
    assert q * base == q + q + q * (base - 2);
    assert q * (base - 2) >= 0;
  }

  lemma RejoinDigits(n: nat, base: nat, q: nat, r: nat, ds: seq<nat>)
    requires base >= 2 && q == n / base && r == n % base && FromDigits(ds, base) == q
    ensures FromDigits(ds + [r], base) == n
  {
    AppendDigit(ds, r, base);
    DivModSum(n, base);
  }

  lemma AppendDigit(ds: seq<nat>, d: nat, base: nat)
    ensures FromDigits(ds + [d], base) == FromDigits(ds, base) * base + d
  {
  }

  lemma DivModSum(n: nat, base: nat)
    requires base >= 2
    ensures (n / base) * base + n % base == n
  {
  }

  // ---------------------------------------------------------------- what the texts say

  /** Digits only, from 48, the character '0', up or down. */
  ghost predicate DigitsOnly(text: seq<byte>, down: bool) {
    forall i | 0 <= i < |text| :: if down then 39 <= text[i] <= 48 else 48 <= text[i] <= 57
  }

  function DigitValues(text: seq<byte>, down: bool): (ds: seq<nat>)
    requires DigitsOnly(text, down)
    ensures |ds| == |text|
  {
    seq(|text|, i requires 0 <= i < |text| => if down then 48 - text[i] else text[i] - 48)
  }

  /** The text is the decimal notation of m: digits only, of that value, without leading zeros. */
  ghost predicate Notation(text: seq<byte>, down: bool, m: nat) {
    && text != [] && (text[0] == 48 ==> m == 0 && |text| == 1)
    && DigitsOnly(text, down) && FromDigits(DigitValues(text, down), 10) == m
  }

  lemma NotationSnoc(text: seq<byte>, down: bool, m: nat, d: nat)
    requires Notation(text, down, m) && m > 0 && d < 10
    ensures Notation(text + [if down then 48 - d else 48 + d], down, m * 10 + d)
  {
    var longer := text + [if down then 48 - d else 48 + d];
    assert DigitValues(longer, down) == DigitValues(text, down) + [d];
    AppendDigit(DigitValues(text, down), d, 10);
  }

  lemma {:induction false} DigitTextNotation(m: nat, below: bool)
    ensures Notation(DigitText(m, below), below, m)
    decreases m
  {
    if m < 10 {
      var values := DigitValues(DigitText(m, below), below);
      assert values == [m] && values[..0] == [];
    } else {
      DigitTextNotation(m / 10, below);
      NotationSnoc(DigitText(m / 10, below), below, m / 10, m % 10);
    }
  }

  /** The text of an int: its decimal notation, after a minus sign if it is negative. The smallest int
      alone is written with characters that count down from '0'. */
  lemma IntTextMeaning(x: int)
    requires MIN_INT <= x <= MAX_INT
    ensures x >= 0 ==> Notation(IntText(x), false, x)
    ensures x < 0 ==> IntText(x) != [] && IntText(x)[0] == 45 && Notation(IntText(x)[1..], x == MIN_INT, -x)
  {
    if x >= 0 {
      DigitTextNotation(x, false);
    } else {
      DigitTextNotation(-x, x == MIN_INT);
      assert IntText(x)[1..] == DigitText(-x, x == MIN_INT);
    }
  }

  /** The same digit by digit. */
  lemma DecimalDigitByDigit(n: nat)
    ensures n < 10 ==> Decimal(n) == [48 + n]
    ensures n >= 10 ==> Decimal(n) == Decimal(n / 10) + [48 + n % 10]
  {
  }

  /** The values of the characters from '0' to '9' in a text. */
  function DigitsIn(text: seq<byte>): seq<nat> {
    if text == [] then []
    else
      var c := text[|text| - 1];
      DigitsIn(text[..|text| - 1]) + if 48 <= c <= 57 then [c - 48] else []
  }

  /** What is read from any text: the value of its digits, wrapped to 64 bits; all else is skipped. */
  lemma {:induction false} DecodedIntMeaning(text: seq<byte>)
    ensures DecodedInt(text) == Wrap64(FromDigits(DigitsIn(text), 10))
    decreases |text|
  {
    if text == [] {
    } else {
      var init, c := text[..|text| - 1], text[|text| - 1];
      DecodedIntMeaning(init);
      if 48 <= c <= 57 {
        AppendDigit(DigitsIn(init), c - 48, 10);
        WrapOnce(FromDigits(DigitsIn(init), 10), 10, c - 48);
      } else {
        assert DigitsIn(text) == DigitsIn(init);
      }
    }
  }

  // ---------------------------------------------------------------- big integers

  /** big.Int.Bytes and SetBytes. */
  function Bytes(n: nat): seq<byte> {
    var ds := Digits(n, 256);
    seq(|ds|, i requires 0 <= i < |ds| => ds[i])
  }

  function SetBytes(data: seq<byte>): nat {
    FromDigits(data, 256)
  }

  function BigIntEncoder(n: nat): seq<byte> {
    var bytes := Bytes(n);
    if |bytes| == 0 && n == 0 then [0] else bytes
  }

  function BigIntDecoder(data: seq<byte>): nat {
    if |data| == 0 then 0
    else if |data| == 1 && data[0] == 0 then 0
    else SetBytes(data)
  }

  /** The bytes are big-endian, and no more than needed. */
  lemma BytesAreBigEndian(n: nat)
    ensures n == 0 ==> Bytes(n) == [] && BigIntEncoder(n) == [0]
    ensures n > 0 ==> Bytes(n) == Bytes(n / 256) + [n % 256] && Bytes(n)[0] != 0 && BigIntEncoder(n) == Bytes(n)
  {
    if n > 0 {
      assert Bytes(n) == Bytes(n / 256) + [n % 256];
      FirstDigit(n, 256);
    }
  }

  lemma {:induction false} FirstDigit(n: nat, base: nat)
    requires n > 0 && base >= 2
    ensures Digits(n, base) != [] && Digits(n, base)[0] != 0
  {
    QuotientSmaller(n, base);
    if n / base == 0 {
      DivModSum(n, base);
      assert Digits(n, base) == [n % base];
    } else {
      FirstDigit(n / base, base);
    }
  }

  /** Any byte string is read as a big-endian number. */
  lemma SetBytesIsBigEndian(data: seq<byte>, b: byte)
    ensures SetBytes([]) == 0 && SetBytes(data + [b]) == SetBytes(data) * 256 + b
    ensures BigIntDecoder(data) == SetBytes(data)
  {
    var ds: seq<nat> := data;
    AppendDigit(ds, b, 256);
    if |data| == 1 && data[0] == 0 { assert ds[..0] == [] && FromDigits(ds, 256) == 0; }
  }

  lemma BytesRoundTrip(n: nat)
    ensures SetBytes(Bytes(n)) == n
  {
    DigitsRoundTrip(n, 256);
    assert Bytes(n) == Digits(n, 256);
  }

  lemma BigIntRoundTrip(n: nat)
    ensures BigIntDecoder(BigIntEncoder(n)) == n && BigIntEncoder(n) != []
  {
    BytesRoundTrip(n);
    var zero: seq<nat> := [0];
    assert zero[..0] == [] && FromDigits(zero, 256) == 0;
  }

  // ---------------------------------------------------------------- addresses

  /** Exactly count digits of n, most significant first. */
  function FixedDigits(n: nat, base: nat, count: nat): (ds: seq<nat>)
    requires base >= 2
    ensures |ds| == count && forall i | 0 <= i < count :: ds[i] < base
  {
    if count == 0 then [] else FixedDigits(n / base, base, count - 1) + [n % base]
  }

  function Power(base: nat, k: nat): nat {
    if k == 0 then 1 else base * Power(base, k - 1)
  }

  lemma {:induction false} FixedRoundTrip(n: nat, base: nat, count: nat)
    requires base >= 2 && n < Power(base, count)
    ensures FromDigits(FixedDigits(n, base, count), base) == n
  {
    if count == 0 {
    } else {
      QuotientBelow(n, base, Power(base, count - 1));
      FixedRoundTrip(n / base, base, count - 1);
      RejoinDigits(n, base, n / base, n % base, FixedDigits(n / base, base, count - 1));
    }
  }

  lemma QuotientBelow(n: nat, base: nat, p: nat)
    requires base >= 2 && n < base * p
    ensures 0 <= n / base < p
  {
    DivModSum(n, base);
    var q := n / base;
    assert (q - p) * base == q * base - p * base;
    if q > p { MulAtLeast(q - p, base); }
  }

  const ADDRESS_DIGITS: nat := 40

  /** The text of an address, as its 40 hexadecimal digits. */
  function HexText(address: nat): seq<byte> {
    var ds := FixedDigits(address, 16, ADDRESS_DIGITS);
    seq(|ds|, i requires 0 <= i < |ds| => ds[i])
  }

  function FromHex(text: seq<byte>): nat {
    FromDigits(text, 16)
  }

  lemma {:induction false} PowerOf16(k: nat)
    ensures Power(16, k) == Pow2(4 * k)
  {
    if k == 0 {
    } else {
      PowerOf16(k - 1);
      Pow2Add(4, 4 * (k - 1));
      assert Pow2(4) == 16;
    }
  }

  /** The text of a 160-bit address has 40 digits of that value. */
  lemma HexRoundTrip(address: nat)
    requires address < Pow2(160)
    ensures |HexText(address)| == 40 && FromHex(HexText(address)) == address
    ensures forall i | 0 <= i < 40 :: HexText(address)[i] < 16
  {
    PowerOf16(40);
    FixedRoundTrip(address, 16, ADDRESS_DIGITS);
    assert HexText(address) == FixedDigits(address, 16, ADDRESS_DIGITS);
  }
}
