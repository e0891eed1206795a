/**
 * JavaScript numbers as the debugger console uses them: parseInt with
 * radix 0, Number.prototype.toString(16), the zero-padding idiom
 * ("0000" + s).substr(-4) and printf's "%04x"/"%02x".
 */
module JsNumber {
  import opened Wrappers
  import opened JsText

  /** A JavaScript number as the console sees it: an integer, or NaN (None). */
  type Number = Option<int>

  /** The value of c as a hexadecimal digit of either case, if it is one. */
  function HexDigitValue(c: char): (d: Option<nat>)
    ensures d.Some? ==> d.value < 16
  {
    if '0' <= c <= '9' then Some(c as int - '0' as int)
    else if 'a' <= c <= 'f' then Some(c as int - 'a' as int + 10)
    else if 'A' <= c <= 'F' then Some(c as int - 'A' as int + 10)
    else None
  }

  /** c is a digit of the given radix (10 or 16 here). */
  predicate IsDigitOf(c: char, radix: nat) {
    HexDigitValue(c).Some? && HexDigitValue(c).value < radix
  }

  predicate AllDigitsOf(z: string, radix: nat) {
    forall i :: 0 <= i < |z| ==> IsDigitOf(z[i], radix)
  }

  /** The longest prefix of s made of digits of the radix. */
  function DigitPrefix(s: string, radix: nat): (z: string)
    ensures |z| <= |s| && z == s[..|z|]
    ensures AllDigitsOf(z, radix)
    ensures |z| == |s| || !IsDigitOf(s[|z|], radix)
  {
    if s != [] && IsDigitOf(s[0], radix) then [s[0]] + DigitPrefix(s[1..], radix) else []
  }

  /** A string of digits is its own longest digit prefix. */
  lemma {:induction false} DigitPrefixOfDigits(z: string, radix: nat)
    requires AllDigitsOf(z, radix)
    ensures DigitPrefix(z, radix) == z
  {
    if z != [] {
      DigitPrefixOfDigits(z[1..], radix);
    }
  }

  /** The value of a string of digits in the radix, most significant first. */
  function ValueOf(z: string, radix: nat): nat
    requires AllDigitsOf(z, radix)
  {
    if z == [] then 0
    else ValueOf(z[..|z| - 1], radix) * radix + HexDigitValue(z[|z| - 1]).value
  }

  /**
   * parseInt(s, 0): leading white space is skipped, one sign is accepted,
   * "0x"/"0X" selects base 16 and anything else base 10 (a leading 0 does
   * not select octal), the longest run of digits is read, and no digit at
   * all gives NaN.
   */
  function ParseInt(s: string): Number
  {
    ParseSigned(TrimStart(s))
  }

  /** parseInt after the white space: an optional sign, then the magnitude. */
  function ParseSigned(t: string): Number
  {
    if t != [] && t[0] == '-' then
      match ParseMagnitude(t[1..])
      case None => None
      case Some(v) => Some(0 - v)
    else if t != [] && t[0] == '+' then ParseMagnitude(t[1..])
    else ParseMagnitude(t)
  }

  /** The unsigned part: "0x"/"0X" and hexadecimal digits, or decimal digits. */
  function ParseMagnitude(u: string): Option<nat>
  {
    if |u| >= 2 && u[0] == '0' && (u[1] == 'x' || u[1] == 'X') then LeadingDigits(u[2..], 16)
    else LeadingDigits(u, 10)
  }

  /** The value of the longest prefix of digits in radix, or NaN when there is none. */
  function LeadingDigits(u: string, radix: nat): Option<nat>
  {
    var z := DigitPrefix(u, radix);
    if z == [] then None else Some(ValueOf(z, radix))
  }

  /** The lower-case digit for a value below 16. */
  function HexChar(d: nat): (c: char)
    requires d < 16
    ensures HexDigitValue(c) == Some(d)
    ensures '0' <= c <= '9' || 'a' <= c <= 'f'
  {
    if d < 10 then ('0' as int + d) as char else ('a' as int + d - 10) as char
  }

  predicate IsLowerHex(s: string) {
    forall i :: 0 <= i < |s| ==> '0' <= s[i] <= '9' || 'a' <= s[i] <= 'f'
  }

  /** Number.prototype.toString(16) of a non-negative integer. */
  function Hex(n: nat): (r: string)
    ensures |r| >= 1 && IsLowerHex(r) && AllDigitsOf(r, 16)
    ensures |r| > 1 ==> r[0] != '0'
  {
    if n < 16 then [HexChar(n)] else Hex(n / 16) + [HexChar(n % 16)]
  }

  /** Number.prototype.toString(16) of any number: "NaN", or a sign and the digits. */
  function ToHexString(x: Number): string
  {
    match x
    case None => "NaN"
    case Some(v) => if v < 0 then "-" + Hex(-v) else Hex(v)
  }

  function Zeros(n: nat): (z: string)
    ensures |z| == n && forall i :: 0 <= i < n ==> z[i] == '0'
  {
    seq(n, _ => '0')
  }

  /** ("00…0" + s).substr(-width) with width zeros: the last width characters. */
  function PadTail(s: string, width: nat): (r: string)
    ensures |r| == width
  {
    var t := Zeros(width) + s;
    t[|t| - width..]
  }

  /** ("0000" + x.toString(16)).substr(-4). */
  function Hex4(x: Number): string
  {
    PadTail(ToHexString(x), 4)
  }

  /** ("00" + x.toString(16)).substr(-2). */
  function Hex2(x: Number): string
  {
    PadTail(ToHexString(x), 2)
  }

  /** printf("%0<width>x"): zeros added in front up to width, never truncated. */
  function Printf(n: nat, width: nat): string
  {
    var h := Hex(n);
    if |h| >= width then h else Zeros(width - |h|) + h
  }

  function Pow16(k: nat): (p: nat)
    ensures p >= 1
  {
    if k == 0 then 1 else 16 * Pow16(k - 1)
  }

  /** The width lowest hexadecimal digits of x, most significant first. */
  function FixedHex(x: nat, width: nat): (r: string)
    ensures |r| == width && IsLowerHex(r) && AllDigitsOf(r, 16)
  {
    if width == 0 then "" else FixedHex(x / 16, width - 1) + [HexChar(x % 16)]
  }

  /** The digits of Hex read back give the number. */
  lemma {:induction false} HexValue(n: nat)
    ensures ValueOf(Hex(n), 16) == n
  {
    if n >= 16 {
      HexValue(n / 16);
      var h := Hex(n);
      assert h[..|h| - 1] == Hex(n / 16);
    }
  }

  /** A number below 16^k has at most k hexadecimal digits. */
  lemma {:induction false} HexLength(n: nat, k: nat)
    requires 1 <= k && n < Pow16(k)
    ensures |Hex(n)| <= k
  {
    if n >= 16 {
      HexLength(n / 16, k - 1);
    }
  }

  lemma {:induction false} FixedHexOfZero(width: nat)
    ensures FixedHex(0, width) == Zeros(width)
  {
    if width > 0 {
      FixedHexOfZero(width - 1);
    }
  }

  /** Appending a digit multiplies the value by the radix and adds the digit. */
  lemma ValueOfSnoc(z: string, c: char, radix: nat)
    requires AllDigitsOf(z, radix) && IsDigitOf(c, radix)
    ensures AllDigitsOf(z + [c], radix)
    ensures ValueOf(z + [c], radix) == ValueOf(z, radix) * radix + HexDigitValue(c).value
  {
    assert (z + [c])[..|z|] == z;
  }

  lemma FixedHexStep(x: nat, width: nat)
    requires width >= 1
    ensures AllDigitsOf(FixedHex(x, width), 16)
    ensures ValueOf(FixedHex(x, width), 16) == ValueOf(FixedHex(x / 16, width - 1), 16) * 16 + x % 16
  {
    ValueOfSnoc(FixedHex(x / 16, width - 1), HexChar(x % 16), 16);
  }

  /** Dropping the last hexadecimal digit of y and reducing modulo k. */
  lemma LowDigitSplit(y: nat, k: nat)
    requires k > 0
    ensures y % (16 * k) == y / 16 % k * 16 + y % 16
  {
    var q, r := y / 16, y % 16;
    var a, b := q / k, q % k;
    assert q == k * a + b;
    assert y == 16 * (k * a) + (16 * b + r);
    assert 16 * (k * a) == (16 * k) * a;
    ModUnique(y, 16 * k, a, 16 * b + r);
  }

  /** The remainder is the one t with y == m * a + t and 0 <= t < m. */
  lemma ModUnique(y: int, m: int, a: int, t: int)
    requires m > 0 && 0 <= t < m && y == m * a + t
    ensures y % m == t
  {
    var q, r := y / m, y % m;
    assert m * (a - q) == r - t;
    if a > q {
      MulAtLeast(m, a - q);
    } else if a < q {
      MulAtLeast(m, q - a);
    }
  }

  // Arithmetic step kept as a lemma so that ModUnique's proof stays within its resource budget.
  lemma MulAtLeast(m: int, n: int)
    requires m > 0 && n >= 1
    ensures m * n >= m
  {
  }

  /** Four fixed digits keep exactly the value of x modulo 0x10000. */
  lemma FixedHex4Value(x: nat)
    ensures AllDigitsOf(FixedHex(x, 4), 16)
    ensures ValueOf(FixedHex(x, 4), 16) == x % 0x10000
  {
    var x1, x2, x3 := x / 16, x / 16 / 16, x / 16 / 16 / 16;
    FixedHexStep(x, 4);
    FixedHexStep(x1, 3);
    FixedHexStep(x2, 2);
    FixedHexStep(x3, 1);
    assert ValueOf(FixedHex(x3 / 16, 0), 16) == 0;
    LowDigitSplit(x2, 16);
    LowDigitSplit(x1, 256);
    LowDigitSplit(x, 4096);
  }

  /** Two fixed digits of a byte give the byte back. */
  lemma FixedHex2Value(b: nat)
    requires b < 256
    ensures AllDigitsOf(FixedHex(b, 2), 16)
    ensures ValueOf(FixedHex(b, 2), 16) == b
  {
    FixedHexStep(b, 2);
    FixedHexStep(b / 16, 1);
    assert ValueOf(FixedHex(b / 16 / 16, 0), 16) == 0;
  }

  /** The padding of a string that ends in c ends in c. */
  lemma PadTailSnoc(s: string, c: char, width: nat)
    requires width >= 1
    ensures PadTail(s + [c], width) == PadTail(s, width - 1) + [c]
  {
    var a := Zeros(width) + s;
    var b := Zeros(width - 1) + s;
    assert a == ['0'] + b;
    var t := Zeros(width) + (s + [c]);
    assert t == a + [c];
    assert t[|t| - width..] == a[|a| - (width - 1)..] + [c];
    assert a[|a| - (width - 1)..] == b[|b| - (width - 1)..];
  }

  /** The padding idiom on the digits of x gives the width lowest digits of x. */
  lemma {:induction false} PadTailOfHex(x: nat, width: nat)
    ensures PadTail(Hex(x), width) == FixedHex(x, width)
  {
    if width == 0 {
    } else if x < 16 {
      assert x / 16 == 0 && x % 16 == x;
      assert Hex(x) == [] + [HexChar(x)];
      FixedHexOfZero(width - 1);
      PadTailSnoc([], HexChar(x), width);
      assert PadTail([], width - 1) == Zeros(width - 1);
    } else {
      assert Hex(x) == Hex(x / 16) + [HexChar(x % 16)];
      PadTailOfHex(x / 16, width - 1);
      PadTailSnoc(Hex(x / 16), HexChar(x % 16), width);
    }
  }

  /**
   * The idiom ("0000" + x.toString(16)).substr(-4) on a non-negative x gives
   * four lower-case hexadecimal digits whose value is x mod 0x10000.
   */
  lemma Hex4Unsigned(x: nat)
    ensures |Hex4(Some(x))| == 4 && IsLowerHex(Hex4(Some(x)))
    ensures Hex4(Some(x)) == FixedHex(x, 4)
    ensures AllDigitsOf(Hex4(Some(x)), 16) && ValueOf(Hex4(Some(x)), 16) == x % 0x10000
  {
    PadTailOfHex(x, 4);
    FixedHex4Value(x);
  }

  /** The two-digit variant of the idiom on a byte gives its two hexadecimal digits. */
  lemma Hex2Byte(b: nat)
    requires b < 256
    ensures |Hex2(Some(b))| == 2 && IsLowerHex(Hex2(Some(b)))
    ensures AllDigitsOf(Hex2(Some(b)), 16) && ValueOf(Hex2(Some(b)), 16) == b
  {
    PadTailOfHex(b, 2);
    FixedHex2Value(b);
  }

  /** printf("%04x") and the substr idiom agree on every value that fits in the width. */
  lemma PrintfMatchesPadTail(n: nat, width: nat)
    requires 1 <= width && n < Pow16(width)
    ensures Printf(n, width) == PadTail(Hex(n), width)
  {
    HexLength(n, width);
    var h := Hex(n);
    var t := Zeros(width) + h;
    assert t[|t| - width..] == Zeros(width - |h|) + h;
  }

  /** "0x" followed by hexadecimal digits of either case is read in base 16. */
  lemma ParseIntHexDigits(z: string)
    requires z != [] && AllDigitsOf(z, 16)
    ensures ParseInt("0x" + z) == Some(ValueOf(z, 16))
  {
    var s := "0x" + z;
    assert TrimStart(s) == s;
    assert ParseSigned(s) == ParseMagnitude(s);
    assert s[2..] == z;
    assert ParseMagnitude(s) == LeadingDigits(z, 16);
    DigitPrefixOfDigits(z, 16);
  }

  /** "0x" followed by the digits of n parses back to n. */
  lemma ParseIntHexRoundTrip(n: nat)
    ensures ParseInt("0x" + Hex(n)) == Some(n)
  {
    ParseIntHexDigits(Hex(n));
    HexValue(n);
  }

  /** The value of a string of decimal digits is its value in base ten. */
  lemma {:induction false} DecimalValue(n: nat)
    ensures AllDigitsOf(Decimal(n), 10) && ValueOf(Decimal(n), 10) == n
  {
    if n >= 10 {
      DecimalValue(n / 10);
      var d := Decimal(n);
      assert d[..|d| - 1] == Decimal(n / 10);
    }
  }

  /** The decimal digits of n, as util.format's "%d" prints them, parse back to n. */
  lemma ParseIntDecimalRoundTrip(n: nat)
    ensures ParseInt(Decimal(n)) == Some(n)
  {
    DecimalValue(n);
    ParseIntDigits(Decimal(n));
  }

  /** A string of decimal digits is read in base ten. */
  lemma ParseIntDigits(d: string)
    requires d != [] && AllDigitsOf(d, 10) && forall i :: 0 <= i < |d| ==> '0' <= d[i] <= '9'
    ensures ParseInt(d) == Some(ValueOf(d, 10))
  {
    var c := d[0];
    assert '0' <= c <= '9';
    assert !IsWhiteSpace(c) && c != '-' && c != '+';
    assert TrimStart(d) == d;
    assert ParseSigned(d) == ParseMagnitude(d);
    DecimalMagnitude(d);
  }

  lemma DecimalMagnitude(d: string)
    requires d != [] && AllDigitsOf(d, 10) && forall i :: 0 <= i < |d| ==> '0' <= d[i] <= '9'
    ensures ParseMagnitude(d) == Some(ValueOf(d, 10))
  {
    if |d| >= 2 {
      assert '0' <= d[1] <= '9';
    }
    DigitPrefixOfDigits(d, 10);
  }

  /** A leading zero does not select octal: "0" followed by decimal digits is read in base ten. */
  lemma ParseIntLeadingZeroIsDecimal(n: nat)
    ensures ParseInt("0" + Decimal(n)) == Some(n)
  {
    var d := Decimal(n);
    DecimalValue(n);
    LeadingZeroMagnitude(d);
    var s := "0" + d;
    assert TrimStart(s) == s by { assert s[0] == '0'; }
  }

  lemma LeadingZeroMagnitude(d: string)
    requires d != [] && AllDigitsOf(d, 10)
    ensures ParseSigned("0" + d) == Some(ValueOf(d, 10))
  {
    var s := "0" + d;
    ValueOfLeadingZero(d);
    assert s[1] == d[0];
    DigitPrefixOfDigits(s, 10);
  }

  lemma {:induction false} ValueOfLeadingZero(d: string)
    requires AllDigitsOf(d, 10)
    ensures AllDigitsOf("0" + d, 10) && ValueOf("0" + d, 10) == ValueOf(d, 10)
  {
    assert AllDigitsOf("0" + d, 10);
    if d != [] {
      var s := "0" + d;
      assert s[..|s| - 1] == "0" + d[..|d| - 1];
      ValueOfLeadingZero(d[..|d| - 1]);
    }
  }

  /** The parse ignores leading white space. */
  lemma ParseIntSkipsWhiteSpace(c: char, s: string)
    requires IsWhiteSpace(c)
    ensures ParseInt([c] + s) == ParseInt(s)
  {
    assert ([c] + s)[1..] == s;
    assert TrimStart([c] + s) == TrimStart(s);
  }

  /** A string that does not start with a digit, a sign or white space is NaN. */
  lemma ParseIntNoDigits(s: string)
    requires s != [] && !IsDigitOf(s[0], 10) && !IsWhiteSpace(s[0]) && s[0] != '+' && s[0] != '-'
    ensures ParseInt(s) == None
  {
  }
}
