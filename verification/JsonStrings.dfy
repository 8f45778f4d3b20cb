/** Strings of JSON as section 7 of RFC 8259 writes them: plain bytes, escapes of two characters, and four hex digits. */
module JsonStrings {
  import opened Bytes

  datatype Unit = Plain(b: Byte) | Short(letter: Byte, b: Byte) | Hex(u: nat, digits: Bytes)

  const SHORTS: seq<(Byte, Byte)> :=
    [('"', '"'), ('\\', '\\'), ('/', '/'), ('b', '\U{08}'), ('f', '\U{0C}'), ('n', '\n'), ('r', '\r'), ('t', '\t')]

  const LOWER: Bytes := "0123456789abcdef"
  const UPPER: Bytes := "0123456789ABCDEF"

  predicate IsDigitOf(c: Byte, v: nat) { v < 16 && (c == LOWER[v] || c == UPPER[v]) }

  /** Four hex digits in either case. */
  predicate Spells(digits: Bytes, u: nat) {
    && |digits| == 4 && u < 0x1_0000
    && IsDigitOf(digits[0], u / 4096) && IsDigitOf(digits[1], u / 256 % 16) && IsDigitOf(digits[2], u / 16 % 16) && IsDigitOf(digits[3], u % 16)
  }

  predicate IsUnit(x: Unit) {
    match x
    case Plain(b) => b != '"' && b != '\\'
    case Short(letter, b) => (letter, b) in SHORTS
    case Hex(u, digits) => Spells(digits, u)
  }

  function Written(x: Unit): (r: Bytes)
    ensures r != []
  {
    match x
    case Plain(b) => [b]
    case Short(letter, _) => ['\\', letter]
    case Hex(_, digits) => ['\\', 'u'] + digits
  }

  function Text(units: seq<Unit>): Bytes {
    if units == [] then [] else Written(units[0]) + Text(units[1..])
  }

  /** A character is the digit of one number at most. */
  lemma DigitNumber(c: Byte, v: nat)
    requires IsDigitOf(c, v)
    ensures (v < 10 && c as int == '0' as int + v) || (v >= 10 && (c as int == 'a' as int + v - 10 || c as int == 'A' as int + v - 10))
  {}

  lemma NumberDigit(c: Byte, v: nat)
    requires v < 16
    requires (v < 10 && c as int == '0' as int + v) || (v >= 10 && (c as int == 'a' as int + v - 10 || c as int == 'A' as int + v - 10))
    ensures IsDigitOf(c, v)
  {}

  lemma FourDigits(a: nat, b: nat, c: nat, d: nat, u: nat)
    requires a < 16 && b < 16 && c < 16 && d < 16
    ensures u == a * 4096 + b * 256 + c * 16 + d
            <==> u < 0x1_0000 && u / 4096 == a && u / 256 % 16 == b && u / 16 % 16 == c && u % 16 == d
  {
    assert u / 256 == u / 16 / 16 && u / 4096 == u / 256 / 16;
    LastDigit(u / 256, a, b);
    LastDigit(u / 16, a * 16 + b, c);
    LastDigit(u, a * 256 + b * 16 + c, d);
  }

  lemma LastDigit(n: nat, high: nat, low: nat)
    requires low < 16
    ensures n == high * 16 + low <==> n / 16 == high && n % 16 == low
  {}
}
