/**
 * Decimal and hexadecimal digits as Rust's formatting machinery writes them
 * (`{}`, `{:X}`, `{:0w}`, `{:w}`), and the parsers that read them back
 * (`str::parse`, `u64::from_str_radix(_, 16)`), on unbounded naturals.
 */
module Digits {
  import opened Wrappers

  /** A `u8`. */
  type Byte = x: int | 0 <= x < 0x100

  // ---------------------------------------------------------------- single digits

  /** The character of a digit below 16, upper-case for 10..15 as `{:X}` writes it. */
  function DigitChar(d: nat): (c: char)
    requires d < 16
  {
    if d < 10 then '0' + d as char else 'A' + (d - 10) as char
  }

  /** The value of a hexadecimal digit of either case, as `from_str_radix(_, 16)` reads it. */
  function HexDigitValue(c: char): Option<nat> {
    if '0' <= c <= '9' then Some(c as nat - '0' as nat)
    else if 'A' <= c <= 'F' then Some(c as nat - 'A' as nat + 10)
    else if 'a' <= c <= 'f' then Some(c as nat - 'a' as nat + 10)
    else None
  }

  /** Reading a written digit back gives the digit. */
  lemma DigitCharValue(d: nat)
    requires d < 16
    ensures HexDigitValue(DigitChar(d)) == Some(d)
    ensures d < 10 <==> '0' <= DigitChar(d) <= '9'
  {
  }

  lemma MulNonnegative(a: nat, b: nat)
    ensures a * b >= 0
  {
  }

  lemma MulAssoc(a: int, b: int, c: int)
    ensures (a * b) * c == a * (b * c)
  {
  }

  /** Multiplying by the same natural keeps the order. */
  lemma MulMonotone(a: nat, b: nat, c: nat)
    requires a <= b
    ensures a * c <= b * c
  {
    MulNonnegative(b - a, c);
    assert b * c == a * c + (b - a) * c;
  }

  /** Quotient and remainder are unique. */
  lemma DivModUnique(v: nat, d: nat, q: nat, r: nat)
    requires d >= 1 && v == d * q + r && r < d
    ensures v / d == q && v % d == r
  {
    var q' := v / d;
    if q' > q {
      var e: nat := q' - q - 1;
      MulNonnegative(d, e);
      assert false;
    } else if q' < q {
      var e: nat := q - q' - 1;
      MulNonnegative(d, e);
      assert false;
    }
  }

  function Max(a: nat, b: nat): nat { if a <= b then b else a }
  function Min(a: nat, b: nat): nat { if a <= b then a else b }

  function Pow(base: nat, n: nat): (p: nat)
    requires base >= 1
    ensures p >= 1
  {
    if n == 0 then 1 else base * Pow(base, n - 1)
  }

  // ---------------------------------------------------------------- minimal-length numerals

  /** `format!("{}", n)` in base 10, or `format!("{:X}", n)` in base 16: no leading zeros, "0" for zero. */
  function Numeral(n: nat, base: nat): (s: string)
    requires 2 <= base <= 16
    ensures |s| >= 1
    decreases n
  {
    if n < base then [DigitChar(n)] else Numeral(n / base, base) + [DigitChar(n % base)]
  }

  /** A non-empty string of digits in `base`. */
  predicate IsDigitString(s: string, base: nat) {
    s != [] && forall i :: 0 <= i < |s| ==> HexDigitValue(s[i]).Some? && HexDigitValue(s[i]).value < base
  }

  /** The value of a string of digits in `base`, or `None` if some character is not such a digit or it is empty. */
  function ParseNumeral(s: string, base: nat): Option<nat>
    requires 2 <= base <= 16
  {
    if |s| == 0 then None
    else
      var d := HexDigitValue(s[|s| - 1]);
      if d.None? || d.value >= base then None
      else if |s| == 1 then Some(d.value)
      else match ParseNumeral(s[..|s| - 1], base)
        case None => None
        case Some(v) => Some(v * base + d.value)
  }

  /** A string has a value in `base` exactly when it is a non-empty string of digits in `base`. */
  lemma {:induction false} ParseNumeralDefined(s: string, base: nat)
    requires 2 <= base <= 16
    ensures ParseNumeral(s, base).Some? <==> IsDigitString(s, base)
    decreases |s|
  {
    if |s| > 1 {
      var p := s[..|s| - 1];
      ParseNumeralDefined(p, base);
      assert forall i :: 0 <= i < |p| ==> p[i] == s[i];
    }
  }

  /** One digit off the end: `n == (n / base) base + n mod base`. */
  lemma DivStep(n: nat, base: nat)
    requires 2 <= base
    ensures n == (n / base) * base + n % base && n % base < base
    ensures n >= 1 ==> n / base < n
  {
    var q := n / base;
    var e: nat := base - 2;
    MulNonnegative(q, e);
    assert q * base == 2 * q + q * e;
  }

  /** With `r < base`, `q < p` exactly when `q base + r < p base`. */
  lemma BoundStep(q: nat, r: nat, base: nat, p: nat)
    requires r < base
    ensures q < p <==> q * base + r < p * base
  {
    if q < p {
      var e: nat := p - q - 1;
      MulNonnegative(e, base);
      assert p * base == q * base + base + e * base;
    } else {
      var e: nat := q - p;
      MulNonnegative(e, base);
      assert q * base == p * base + e * base;
    }
  }

  /** Parsing a written numeral gives back the number. */
  lemma {:induction false} NumeralRoundTrip(n: nat, base: nat)
    requires 2 <= base <= 16
    ensures ParseNumeral(Numeral(n, base), base) == Some(n)
    decreases n
  {
    DigitCharValue(n % base);
    if n >= base {
      var s := Numeral(n, base);
      DivStep(n, base);
      assert s[..|s| - 1] == Numeral(n / base, base);
      NumeralRoundTrip(n / base, base);
    }
  }

  /** A numeral has at most `k` digits exactly when the number is below `base^k`. */
  lemma {:induction false} NumeralLength(n: nat, base: nat, k: nat)
    requires 2 <= base <= 16 && k >= 1
    ensures |Numeral(n, base)| <= k <==> n < Pow(base, k)
    decreases n
  {
    var p := Pow(base, k - 1);
    assert Pow(base, k) == p * base;
    if n < base {
      BoundStep(0, n, base, p);
    } else if k == 1 {
      assert |Numeral(n, base)| >= 2 by { assert |Numeral(n / base, base)| >= 1; }
    } else {
      DivStep(n, base);
      NumeralLength(n / base, base, k - 1);
      BoundStep(n / base, n % base, base, p);
    }
  }

  /** No numeral contains a character other than a digit. */
  lemma {:induction false} NumeralDigits(n: nat, base: nat)
    requires 2 <= base <= 16
    ensures forall i :: 0 <= i < |Numeral(n, base)| ==> HexDigitValue(Numeral(n, base)[i]).Some?
    decreases n
  {
    var c := DigitChar(n % base);
    DigitCharValue(n % base);
    assert HexDigitValue(c).Some?;
    if n >= base {
      var a := Numeral(n / base, base);
      DivStep(n, base);
      NumeralDigits(n / base, base);
      assert Numeral(n, base) == a + [c];
      forall i | 0 <= i < |a| + 1
        ensures HexDigitValue((a + [c])[i]).Some?
      {
        if i < |a| {
          assert (a + [c])[i] == a[i];
        }
      }
    }
  }

  // ---------------------------------------------------------------- padding

  /** Right-aligned in a field of `width` filled with `fill` (`{:0w}` with '0', `{:w}` with ' '); never truncates. */
  function PadLeft(s: string, width: nat, fill: char): (r: string)
    ensures |r| == if |s| >= width then |s| else width
    ensures r[|r| - |s|..] == s
    ensures forall i :: 0 <= i < |r| - |s| ==> r[i] == fill
  {
    if |s| >= width then s else seq(width - |s|, _ => fill) + s
  }

  /** Padding a numeral with one more digit on the right keeps the padding aligned. */
  lemma PadLeftAppend(s: string, width: nat, fill: char, c: char)
    requires width >= 1
    ensures PadLeft(s + [c], width, fill) == PadLeft(s, width - 1, fill) + [c]
  {
  }

  /** A non-empty run of zeros reads as zero. */
  lemma {:induction false} ParseZeros(z: string, base: nat)
    requires 2 <= base <= 16 && |z| >= 1
    requires forall i :: 0 <= i < |z| ==> z[i] == '0'
    ensures ParseNumeral(z, base) == Some(0)
    decreases |z|
  {
    DigitCharValue(0);
    if |z| > 1 {
      ParseZeros(z[..|z| - 1], base);
    }
  }

  /** Leading zeros do not change the value of a numeral. */
  lemma {:induction false} ParseAfterZeros(z: string, s: string, base: nat)
    requires 2 <= base <= 16 && |s| >= 1
    requires forall i :: 0 <= i < |z| ==> z[i] == '0'
    ensures ParseNumeral(z + s, base) == ParseNumeral(s, base)
    decreases |s|
  {
    var t := z + s;
    assert t[|t| - 1] == s[|s| - 1];
    if |z| > 0 {
      if |s| == 1 {
        assert t[..|t| - 1] == z;
        ParseZeros(z, base);
      } else {
        assert t[..|t| - 1] == z + s[..|s| - 1];
        ParseAfterZeros(z, s[..|s| - 1], base);
      }
    } else {
      assert t == s;
    }
  }

  /** A zero-padded numeral (`{:0w}`) reads back as its number, whatever the width. */
  lemma ParsePadded(v: nat, width: nat, base: nat)
    requires 2 <= base <= 16
    ensures ParseNumeral(PadLeft(Numeral(v, base), width, '0'), base) == Some(v)
  {
    var s := Numeral(v, base);
    NumeralRoundTrip(v, base);
    if |s| < width {
      ParseAfterZeros(seq(width - |s|, _ => '0'), s, base);
    }
  }

  // ---------------------------------------------------------------- fixed-width hexadecimal

  /** The last `n` hexadecimal digits of `v`, most significant first: `v mod 16^n` written with exactly `n` digits. */
  function FixedHex(v: nat, n: nat): (s: string)
    ensures |s| == n
  {
    if n == 0 then [] else FixedHex(v / 16, n - 1) + [DigitChar(v % 16)]
  }

  /** `{:0nX}` of a value below `16^n` is the value's `n` hexadecimal digits. */
  lemma {:induction false} ZeroPaddedIsFixed(v: nat, n: nat)
    requires n >= 1 && v < Pow(16, n)
    ensures PadLeft(Numeral(v, 16), n, '0') == FixedHex(v, n)
    decreases n
  {
    if v < 16 {
      FixedZero(v / 16, n - 1);
    } else {
      PadLeftAppend(Numeral(v / 16, 16), n, '0', DigitChar(v % 16));
      assert v / 16 < Pow(16, n - 1);
      ZeroPaddedIsFixed(v / 16, n - 1);
    }
  }

  /** The digits of zero are all '0'. */
  lemma {:induction false} FixedZero(v: nat, n: nat)
    requires v == 0
    ensures FixedHex(v, n) == seq(n, _ => '0')
  {
    if n > 0 {
      FixedZero(0, n - 1);
    }
  }

  /** Reading `n` digits back gives `v mod 16^n`. */
  lemma {:induction false} FixedHexRoundTrip(v: nat, n: nat)
    requires n >= 1
    ensures ParseNumeral(FixedHex(v, n), 16) == Some(v % Pow(16, n))
    decreases n
  {
    var s := FixedHex(v, n);
    DigitCharValue(v % 16);
    if n > 1 {
      var p := Pow(16, n - 1);
      assert s[..|s| - 1] == FixedHex(v / 16, n - 1);
      FixedHexRoundTrip(v / 16, n - 1);
      ModOfDivide(v, 16, p);
      assert Pow(16, n) == 16 * p;
      assert ParseNumeral(s, 16) == Some(((v / 16) % p) * 16 + v % 16);
    }
  }

  lemma MulAddLeft(b: int, x: int, y: int)
    ensures b * (x + y) == b * x + b * y
  {
  }

  /** Two digit steps, `v = b q + r` and `q = m q2 + r2`, make one step of `b m`. */
  lemma TwoDigits(v: nat, b: nat, m: nat, q: nat, r: nat, q2: nat, r2: nat)
    requires v == b * q + r && r < b && q == m * q2 + r2 && r2 < m
    ensures v == (b * m) * q2 + (b * r2 + r) && b * r2 + r < b * m
  {
    var mq := m * q2;
    MulAddLeft(b, mq, r2);
    MulAssoc(b, m, q2);
    MulMonotone(r2, m - 1, b);
    MulAddLeft(b, m - 1, 1);
  }

  /** `(v / b) mod m` and `v mod b` are the digits of `v mod (b m)`. */
  lemma ModOfDivide(v: nat, b: nat, m: nat)
    requires b >= 1 && m >= 1
    ensures ((v / b) % m) * b + v % b == v % (b * m)
  {
    var q, r := v / b, v % b;
    var q2, r2 := q / m, q % m;
    TwoDigits(v, b, m, q, r, q2, r2);
    DivModUnique(v, b * m, q2, b * r2 + r);
  }


  /** `n` hexadecimal digits split into the top `a` and the bottom `n - a`. */
  lemma {:induction false} FixedHexSplit(v: nat, a: nat, b: nat)
    ensures FixedHex(v, a + b) == FixedHex(v / Pow(16, b), a) + FixedHex(v, b)
    decreases b
  {
    if b > 0 {
      FixedHexSplit(v / 16, a, b - 1);
      DivDiv(v, Pow(16, b - 1));
    }
  }

  /** `v / 16 / m == v / (16 m)`. */
  lemma DivDiv(v: nat, m: nat)
    requires m >= 1
    ensures v / 16 / m == v / (16 * m)
  {
    var q := v / 16;
    var r := v % 16;
    var a := q / m;
    var b := q % m;
    var ma := m * a;
    assert q == ma + b;
    assert v == 16 * ma + 16 * b + r;
    assert 16 * ma == (16 * m) * a;
    DivModUnique(v, 16 * m, a, 16 * b + r);
  }

  /** The digits depend on `v` only modulo `16^n`. */
  lemma {:induction false} FixedHexMod(v: nat, n: nat)
    ensures FixedHex(v % Pow(16, n), n) == FixedHex(v, n)
    decreases n
  {
    if n > 0 {
      var m := Pow(16, n - 1);
      ModOfDivide(v, 16, m);
      DivOfMod(v, m);
      FixedHexMod(v / 16, n - 1);
      FixedHexMod((v % (16 * m)) / 16, n - 1);
    }
  }

  /** `(v mod 16 m) / 16 == (v / 16) mod m` and `(v mod 16 m) mod 16 == v mod 16`. */
  lemma DivOfMod(v: nat, m: nat)
    requires m >= 1
    ensures (v % (16 * m)) / 16 == (v / 16) % m
    ensures (v % (16 * m)) % 16 == v % 16
  {
    var q := v / 16;
    var r := v % 16;
    var a := q / m;
    var b := q % m;
    var ma := m * a;
    assert q == ma + b;
    assert v == 16 * ma + 16 * b + r;
    assert 16 * ma == (16 * m) * a;
    DivModUnique(v, 16 * m, a, 16 * b + r);
    DivModUnique(16 * b + r, 16, b, r);
  }
}
