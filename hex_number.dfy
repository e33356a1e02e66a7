/**
 * `HexNumber` of internal_utils/src/display/hex_number.rs: 64-bit values as
 * sixteen upper-case hexadecimal digits in four groups of four joined by '_',
 * built either as one string (`to_separated_hex`) or as a sequence of logged
 * pieces (`log_to_separated_hex`, whose output is their concatenation).
 */
module HexNumber {
  import opened Wrappers
  import opened Digits

  const U64_LIMIT: nat := 0x1_0000_0000_0000_0000
  /** `1 << 48`, `1 << 32`, `1 << 16`: the shifts of the log variants. */
  const SHIFT_48: nat := 0x1_0000_0000_0000
  const SHIFT_32: nat := 0x1_0000_0000
  const SHIFT_16: nat := 0x1_0000

  /** The implementing types: `PhysAddr`, `VirtAddr`, `Permanent<*mut u8>` and plain `u64`. */
  datatype Source = Phys | Virt | Pointer | Plain

  /**
   * The values each type can hold: a `PhysAddr` has no bits above 51, a
   * `VirtAddr` is canonical (bits 48..63 copy bit 47), and a pointer becomes a
   * `VirtAddr` through `VirtAddr::new`, which panics on any other value.
   */
  predicate Holds(src: Source, v: nat) {
    match src
    case Phys => v < 0x10_0000_0000_0000
    case Virt | Pointer => v < 0x8000_0000_0000 || 0xFFFF_8000_0000_0000 <= v < U64_LIMIT
    case Plain => v < U64_LIMIT
  }

  /** The text in front of the digits; a pointer is shown as the `VirtAddr` it becomes. */
  function Prefix(src: Source): string {
    match src
    case Phys => "PhysAddr: 0x"
    case Virt | Pointer => "VirtAddr: 0x"
    case Plain => "0x"
  }

  /** `format!("{:016X}", v)` for the address types, `format!("{:16X}", v)` for `u64`. */
  function Digits16(src: Source, v: nat): (r: string)
    requires v < U64_LIMIT
    ensures |r| == 16
  {
    NumeralWidth(v);
    PadLeft(Numeral(v, 16), 16, if src == Plain then ' ' else '0')
  }

  /** `&hex[0..4]`, `&hex[4..8]`, `&hex[8..12]`, `&hex[12..16]` joined by '_'. */
  function Grouped(hex: string): (r: string)
    requires |hex| == 16
    ensures |r| == 19
  {
    hex[0..4] + "_" + hex[4..8] + "_" + hex[8..12] + "_" + hex[12..16]
  }

  /** `to_separated_hex`. */
  function SeparatedHex(src: Source, v: nat): (r: string)
    requires Holds(src, v)
    ensures |r| == |Prefix(src)| + 19
  {
    Prefix(src) + Grouped(Digits16(src, v))
  }

  /** `format!("{:04X}", g)`. */
  function Group(g: nat): string {
    PadLeft(Numeral(g, 16), 4, '0')
  }

  /** Everything `log_to_separated_hex` logs, in order. */
  function LoggedHex(src: Source, v: nat): string
    requires Holds(src, v)
  {
    Prefix(src)
      + (Group((v / SHIFT_48) % SHIFT_16) + "_"
         + Group((v / SHIFT_32) % SHIFT_16) + "_"
         + Group((v / SHIFT_16) % SHIFT_16) + "_"
         + Group(v % SHIFT_16))
  }

  // ---------------------------------------------------------------- lemmas

  lemma HexPowers()
    ensures Pow(16, 4) == SHIFT_16 && Pow(16, 8) == SHIFT_32 && Pow(16, 12) == SHIFT_48
    ensures Pow(16, 15) == 0x1000_0000_0000_0000 && Pow(16, 16) == U64_LIMIT
  {
    assert Pow(16, 1) == 16;
    assert Pow(16, 2) == 0x100;
    assert Pow(16, 3) == 0x1000;
    assert Pow(16, 4) == 0x1_0000;
    assert Pow(16, 5) == 0x10_0000;
    assert Pow(16, 6) == 0x100_0000;
    assert Pow(16, 7) == 0x1000_0000;
    assert Pow(16, 8) == 0x1_0000_0000;
    assert Pow(16, 9) == 0x10_0000_0000;
    assert Pow(16, 10) == 0x100_0000_0000;
    assert Pow(16, 11) == 0x1000_0000_0000;
    assert Pow(16, 12) == 0x1_0000_0000_0000;
    assert Pow(16, 13) == 0x10_0000_0000_0000;
    assert Pow(16, 14) == 0x100_0000_0000_0000;
    assert Pow(16, 15) == 0x1000_0000_0000_0000;
  }

  /** A 64-bit value has at most sixteen hexadecimal digits, and at most fifteen exactly below `2^60`. */
  lemma NumeralWidth(v: nat)
    ensures |Numeral(v, 16)| <= 16 <==> v < U64_LIMIT
    ensures |Numeral(v, 16)| <= 15 <==> v < 0x1000_0000_0000_0000
  {
    HexPowers();
    NumeralLength(v, 16, 16);
    NumeralLength(v, 16, 15);
  }

  /** For the address types the digits are the value's sixteen fixed hexadecimal digits. */
  lemma AddressDigits(src: Source, v: nat)
    requires src != Plain && Holds(src, v)
    ensures Digits16(src, v) == FixedHex(v, 16)
  {
    HexPowers();
    ZeroPaddedIsFixed(v, 16);
  }

  /** The four digit groups of `v` are `FixedHex` of the shifted and masked values. */
  lemma FixedHexGroups(v: nat)
    ensures FixedHex(v, 16)[0..4] == FixedHex((v / SHIFT_48) % SHIFT_16, 4)
    ensures FixedHex(v, 16)[4..8] == FixedHex((v / SHIFT_32) % SHIFT_16, 4)
    ensures FixedHex(v, 16)[8..12] == FixedHex((v / SHIFT_16) % SHIFT_16, 4)
    ensures FixedHex(v, 16)[12..16] == FixedHex(v % SHIFT_16, 4)
  {
    HexPowers();
    var g0 := FixedHex(v / SHIFT_48, 4);
    var g1 := FixedHex(v / SHIFT_32, 4);
    var g2 := FixedHex(v / SHIFT_16, 4);
    var g3 := FixedHex(v, 4);
    FixedHexSplit(v, 4, 12);
    FixedHexSplit(v, 4, 8);
    FixedHexSplit(v, 4, 4);
    assert FixedHex(v, 16) == g0 + g1 + g2 + g3;
    FixedHexMod(v / SHIFT_48, 4);
    FixedHexMod(v / SHIFT_32, 4);
    FixedHexMod(v / SHIFT_16, 4);
    FixedHexMod(v, 4);
  }

  /** A masked group is shown with exactly its four fixed digits. */
  lemma GroupIsFixed(g: nat)
    requires g < SHIFT_16
    ensures Group(g) == FixedHex(g, 4)
  {
    HexPowers();
    ZeroPaddedIsFixed(g, 4);
  }

  /** For `PhysAddr`, `VirtAddr` and pointers, the logged pieces spell exactly `to_separated_hex`. */
  lemma LoggedMatchesSeparated(src: Source, v: nat)
    requires src != Plain && Holds(src, v)
    ensures LoggedHex(src, v) == SeparatedHex(src, v)
  {
    var h := Digits16(src, v);
    AddressDigits(src, v);
    FixedHexGroups(v);
    var g0, g1, g2, g3 := (v / SHIFT_48) % SHIFT_16, (v / SHIFT_32) % SHIFT_16, (v / SHIFT_16) % SHIFT_16, v % SHIFT_16;
    GroupIsFixed(g0);
    GroupIsFixed(g1);
    GroupIsFixed(g2);
    GroupIsFixed(g3);
    assert h[0..4] == Group(g0) && h[4..8] == Group(g1) && h[8..12] == Group(g2) && h[12..16] == Group(g3);
  }

  /** For `u64` the two agree exactly when the value has sixteen significant digits, i.e. is at least `2^60`. */
  lemma PlainMatchesLoggedIffWide(v: nat)
    requires Holds(Plain, v)
    ensures SeparatedHex(Plain, v) == LoggedHex(Plain, v) <==> v >= 0x1000_0000_0000_0000
  {
    HexPowers();
    NumeralLength(v, 16, 15);
    NumeralLength(v, 16, 16);
    var wide := Numeral(v, 16);
    if v >= 0x1000_0000_0000_0000 {
      assert Digits16(Plain, v) == wide == PadLeft(wide, 16, '0');
      ZeroPaddedIsFixed(v, 16);
      FixedHexGroups(v);
      GroupIsFixed((v / SHIFT_48) % SHIFT_16);
      GroupIsFixed((v / SHIFT_32) % SHIFT_16);
      GroupIsFixed((v / SHIFT_16) % SHIFT_16);
      GroupIsFixed(v % SHIFT_16);
    } else {
      assert SeparatedHex(Plain, v)[2] == ' ';
      var top := (v / SHIFT_48) % SHIFT_16;
      NumeralDigits(top, 16);
      assert LoggedHex(Plain, v)[2] == Group(top)[0];
      assert Group(top)[0] != ' ' by {
        var n := Numeral(top, 16);
        if |n| < 4 {
          assert Group(top)[0] == '0';
        } else {
          assert Group(top)[0] == n[0];
          assert HexDigitValue(n[0]).Some?;
        }
      }
    }
  }

  /** The first character of a padded text is the fill character exactly when padding was needed. */
  lemma PadLeftFirst(t: string, width: nat, fill: char)
    requires |t| >= 1
    ensures PadLeft(t, width, fill)[0] == if |t| < width then fill else t[0]
  {
  }

  /** The character after "0x" is the first of the sixteen digit positions. */
  lemma PlainFirstDigit(v: nat)
    requires Holds(Plain, v)
    ensures SeparatedHex(Plain, v)[2] == Digits16(Plain, v)[0]
  {
    GroupedFirst(Digits16(Plain, v));
  }

  lemma GroupedFirst(d: string)
    requires |d| == 16
    ensures Grouped(d)[0] == d[0]
  {
  }

  /** `u64` values below `2^60` are shown with leading spaces, not zeros; wider ones start with a digit. */
  lemma PlainLeadingSpace(v: nat)
    requires Holds(Plain, v)
    ensures SeparatedHex(Plain, v)[2] == ' ' <==> v < 0x1000_0000_0000_0000
  {
    PlainFirstDigit(v);
    PlainDigitsFirst(v);
    NumeralWidth(v);
  }

  /** The space-padded digits start with a space exactly when the numeral is shorter than sixteen. */
  lemma PlainDigitsFirst(v: nat)
    requires v < U64_LIMIT
    ensures Digits16(Plain, v)[0] == ' ' <==> |Numeral(v, 16)| < 16
  {
    NumeralWidth(v);
    NumeralFirstNotSpace(v);
    PadLeftFirst(Numeral(v, 16), 16, ' ');
  }

  lemma NumeralFirstNotSpace(v: nat)
    ensures Numeral(v, 16)[0] != ' '
  {
    NumeralDigits(v, 16);
    assert HexDigitValue(Numeral(v, 16)[0]).Some?;
  }

  /** The text without its underscores. */
  function RemoveUnderscores(s: string): (r: string)
    ensures |r| <= |s|
  {
    if |s| == 0 then []
    else (if s[0] == '_' then [] else [s[0]]) + RemoveUnderscores(s[1..])
  }

  lemma {:induction false} RemoveUnderscoresAppend(a: string, b: string)
    ensures RemoveUnderscores(a + b) == RemoveUnderscores(a) + RemoveUnderscores(b)
  {
    if |a| > 0 {
      assert (a + b)[0] == a[0];
      assert (a + b)[1..] == a[1..] + b;
      RemoveUnderscoresAppend(a[1..], b);
    } else {
      assert a + b == b;
    }
  }

  lemma {:induction false} RemoveUnderscoresNone(s: string)
    requires forall i :: 0 <= i < |s| ==> s[i] != '_'
    ensures RemoveUnderscores(s) == s
  {
    if |s| > 0 {
      RemoveUnderscoresNone(s[1..]);
    }
  }

  lemma {:induction false} FixedHexNoUnderscore(v: nat, n: nat)
    ensures forall i :: 0 <= i < |FixedHex(v, n)| ==> FixedHex(v, n)[i] != '_'
  {
    if n > 0 {
      FixedHexNoUnderscore(v / 16, n - 1);
      DigitCharValue(v % 16);
    }
  }

  /** Dropping the prefix and the underscores of an address's text and reading it as hexadecimal gives the value back. */
  lemma SeparatedHexRoundTrip(src: Source, v: nat)
    requires src != Plain && Holds(src, v)
    ensures var text := SeparatedHex(src, v);
      && text[..|Prefix(src)|] == Prefix(src)
      && ParseNumeral(RemoveUnderscores(text[|Prefix(src)|..]), 16) == Some(v)
  {
    var h := Digits16(src, v);
    AddressDigits(src, v);
    FixedHexNoUnderscore(v, 16);
    UngroupedDigits(h);
    SplitAfter(Prefix(src), Grouped(h));
    FixedHexRoundTrip16(v);
  }

  lemma SplitAfter(a: string, b: string)
    ensures (a + b)[..|a|] == a && (a + b)[|a|..] == b
  {
  }

  lemma FixedHexRoundTrip16(v: nat)
    requires v < U64_LIMIT
    ensures ParseNumeral(FixedHex(v, 16), 16) == Some(v)
  {
    var p := Pow(16, 16);
    assert p == U64_LIMIT by { HexPowers(); }
    FixedHexRoundTrip(v, 16);
    DivModUnique(v, p, 0, v);
  }

  /** Removing the three separators of a grouped digit string gives the digits back. */
  lemma UngroupedDigits(h: string)
    requires |h| == 16 && forall i :: 0 <= i < |h| ==> h[i] != '_'
    ensures RemoveUnderscores(Grouped(h)) == h
  {
    var a, b, c, e := h[0..4], h[4..8], h[8..12], h[12..16];
    assert h == a + b + c + e;
    assert Grouped(h) == a + "_" + b + "_" + c + "_" + e;
    DropSeparator(a, b);
    DropSeparator(a + "_" + b, c);
    DropSeparator(a + "_" + b + "_" + c, e);
    RemoveUnderscoresNone(a);
    RemoveUnderscoresNone(b);
    RemoveUnderscoresNone(c);
    RemoveUnderscoresNone(e);
  }

  /** One separator between two pieces disappears. */
  lemma DropSeparator(a: string, b: string)
    ensures RemoveUnderscores(a + "_" + b) == RemoveUnderscores(a) + RemoveUnderscores(b)
  {
    var sep := "_";
    assert RemoveUnderscores(sep) == [] by {
      assert sep[1..] == [];
    }
    RemoveUnderscoresAppend(a, sep);
    RemoveUnderscoresAppend(a + sep, b);
  }
}
