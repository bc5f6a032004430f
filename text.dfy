/**
 * String helpers shared by the server (PHP) and client (JavaScript) models:
 * decimal rendering and parsing of ids, the two languages' notions of a
 * blank string, and the UTF-8 byte view that PHP's `substr` works on.
 * Dafny's `char` is a Unicode scalar value, so `|s|` is the character count
 * that `mb_strlen` and Laravel's string size rules use.
 */
module Text {

  import opened Wrappers

  newtype byte = x: int | 0 <= x < 256

  predicate IsDigit(c: char)
  {
    '0' <= c <= '9'
  }

  predicate AllDigits(s: string)
  {
    forall i :: 0 <= i < |s| ==> IsDigit(s[i])
  }

  function DigitChar(d: nat): (c: char)
    requires d < 10
    ensures IsDigit(c)
  {
    (48 + d) as char
  }

  function DigitValue(c: char): (d: nat)
    requires IsDigit(c)
    ensures d < 10 && DigitChar(d) == c
  {
    c as int - 48
  }

  /** The decimal text of a natural number, as PHP prints an int in `'chat.' . $id`. */
  function Decimal(n: nat): (s: string)
    ensures |s| >= 1 && AllDigits(s)
    ensures |s| > 1 ==> s[0] != '0'
  {
    if n < 10 then [DigitChar(n)] else Decimal(n / 10) + [DigitChar(n % 10)]
  }

  /** The value of a non-empty run of decimal digits (leading zeros allowed). */
  function DigitsValue(s: string): nat
    requires AllDigits(s)
  {
    if s == [] then 0 else DigitsValue(s[..|s| - 1]) * 10 + DigitValue(s[|s| - 1])
  }

  /** A numeric id written in decimal, or None for anything that is not all digits. */
  function ParseDecimal(s: string): (r: Option<nat>)
    ensures r.Some? <==> (|s| >= 1 && AllDigits(s))
  {
    if |s| >= 1 && AllDigits(s) then Some(DigitsValue(s)) else None
  }

  lemma {:induction false} DigitsValueOfDecimal(n: nat)
    ensures DigitsValue(Decimal(n)) == n
  {
    if n >= 10 {
      var d := Decimal(n / 10);
      var s := d + [DigitChar(n % 10)];
      assert s[..|s| - 1] == d;
      DigitsValueOfDecimal(n / 10);
    }
  }

  /** Parsing undoes rendering: every id survives a trip through its decimal text. */
  lemma ParseDecimalOfDecimal(n: nat)
    ensures ParseDecimal(Decimal(n)) == Some(n)
  {
    DigitsValueOfDecimal(n);
  }

  /** Distinct ids have distinct decimal texts. */
  lemma DecimalInjective(a: nat, b: nat)
    ensures Decimal(a) == Decimal(b) <==> a == b
  {
    if Decimal(a) == Decimal(b) {
      ParseDecimalOfDecimal(a);
      ParseDecimalOfDecimal(b);
    }
  }

  /** The characters PHP's `trim` strips by default: space, tab, LF, CR, NUL and vertical tab. */
  predicate IsPhpTrimChar(c: char)
  {
    c == ' ' || c == '\t' || c == '\n' || c == '\r' || c as int == 0 || c as int == 11
  }

  /** `trim($s) === ''` in PHP: every character is one that `trim` removes. */
  predicate PhpBlank(s: string)
  {
    forall i :: 0 <= i < |s| ==> IsPhpTrimChar(s[i])
  }

  /** The white space and line terminators that JavaScript's `String.prototype.trim` removes. */
  predicate IsJsWhiteSpace(c: char)
  {
    var k := c as int;
    k == 9 || k == 10 || k == 11 || k == 12 || k == 13 || k == 32 || k == 0xA0 || k == 0x1680
    || (0x2000 <= k <= 0x200A) || k == 0x2028 || k == 0x2029 || k == 0x202F || k == 0x205F
    || k == 0x3000 || k == 0xFEFF
  }

  /** `!s.trim()` in JavaScript: trimming leaves the empty, falsy string. */
  predicate JsBlank(s: string)
  {
    forall i :: 0 <= i < |s| ==> IsJsWhiteSpace(s[i])
  }

  /** The UTF-8 encoding of one character: one to four bytes, one exactly for ASCII. */
  function CharUtf8(c: char): (b: seq<byte>)
    ensures 1 <= |b| <= 4
    ensures |b| == 1 <==> c as int < 0x80
    ensures c as int < 0x80 ==> b[0] as int == c as int
  {
    var k := c as int;
    if k < 0x80 then [k as byte]
    else if k < 0x800 then [(0xC0 + k / 64) as byte, (0x80 + k % 64) as byte]
    else if k < 0x10000 then
      [(0xE0 + k / 4096) as byte, (0x80 + (k / 64) % 64) as byte, (0x80 + k % 64) as byte]
    else
      [(0xF0 + k / 262144) as byte, (0x80 + (k / 4096) % 64) as byte,
       (0x80 + (k / 64) % 64) as byte, (0x80 + k % 64) as byte]
  }

  /** The bytes PHP holds for a string received as UTF-8. */
  function Utf8(s: string): seq<byte>
  {
    if s == [] then [] else CharUtf8(s[0]) + Utf8(s[1..])
  }

  lemma {:induction false} Utf8Append(a: string, b: string)
    ensures Utf8(a + b) == Utf8(a) + Utf8(b)
  {
    if a != [] {
      assert (a + b)[0] == a[0];
      assert (a + b)[1..] == a[1..] + b;
      Utf8Append(a[1..], b);
      calc {
        Utf8(a + b);
        CharUtf8(a[0]) + Utf8(a[1..] + b);
        CharUtf8(a[0]) + (Utf8(a[1..]) + Utf8(b));
      }
    } else {
      assert a + b == b;
    }
  }

  predicate IsAscii(s: string)
  {
    forall i :: 0 <= i < |s| ==> s[i] as int < 0x80
  }

  /** An ASCII string is encoded one byte per character. */
  lemma {:induction false} AsciiUtf8(s: string)
    requires IsAscii(s)
    ensures |Utf8(s)| == |s|
    ensures forall i :: 0 <= i < |s| ==> Utf8(s)[i] as int == s[i] as int
  {
    if s != [] {
      AsciiUtf8(s[1..]);
      var rest := Utf8(s[1..]);
      assert Utf8(s) == CharUtf8(s[0]) + rest;
      forall i | 0 <= i < |s| ensures Utf8(s)[i] as int == s[i] as int {
        if i > 0 {
          assert Utf8(s)[i] == rest[i - 1];
          assert s[1..][i - 1] == s[i];
        }
      }
    }
  }

  function Min(a: nat, b: nat): nat
  {
    if a <= b then a else b
  }

  /** PHP's `substr($s, 0, $n)` for `$n >= 0`: the first `$n` bytes, or all of them. */
  function Substr(b: seq<byte>, n: nat): (r: seq<byte>)
    ensures |r| == Min(n, |b|)
    ensures forall i :: 0 <= i < |r| ==> r[i] == b[i]
  {
    if |b| <= n then b else b[..n]
  }

  /** For an ASCII string, the first `n` bytes are the encoding of the first `n` characters. */
  lemma AsciiSubstr(s: string, n: nat)
    requires IsAscii(s)
    ensures Substr(Utf8(s), n) == Utf8(s[..Min(n, |s|)])
  {
    AsciiUtf8(s);
    if |s| <= n {
      assert s[..Min(n, |s|)] == s;
    } else {
      var a, b := s[..n], s[n..];
      assert s == a + b;
      Utf8Append(a, b);
      assert IsAscii(a);
      AsciiUtf8(a);
      assert Utf8(s)[..n] == Utf8(a);
    }
  }

}
