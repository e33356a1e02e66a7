/**
 * `div_255_fast` of internal_utils/src/lib.rs: division by 255 with two
 * additions and two shifts, on a `u16`, cast to `u8`.
 */
module Div255 {
  import Digits

  /** The largest argument for which `x + 257` still fits in a `u16`. */
  const DIV255_MAX: nat := 65278

  /** `(x + ((x + 257) >> 8)) >> 8`, before the `as u8` cast. */
  function Div255Wide(x: nat): nat
    requires x <= DIV255_MAX
  {
    (x + (x + 257) / 256) / 256
  }

  /** `div_255_fast(x)`: the wide value truncated to a byte; it is `x / 255`, and the `as u8` cast loses nothing. */
  function Div255Fast(x: nat): (r: nat)
    requires x <= DIV255_MAX
    ensures r == x / 255 && r <= 255
    ensures Div255Wide(x) == r
  {
    Div255WideExact(x);
    Div255Wide(x) % 256
  }

  /** The whole `u16` range is `x + 257 < 2^16` exactly up to `DIV255_MAX`. */
  lemma NoOverflowBound(x: nat)
    requires x < 0x1_0000
    ensures x + 257 < 0x1_0000 <==> x <= DIV255_MAX
  {
  }

  /** On its whole domain the shift trick computes the floor of `x / 255`, before the cast. */
  lemma Div255WideExact(x: nat)
    requires x <= DIV255_MAX
    ensures Div255Wide(x) == x / 255
  {
    var q := x / 255;
    var r := x % 255;
    assert x == 255 * q + r;
    assert q <= 255;
    var t := (x + 257) / 256;
    if r + 1 >= q {
      Digits.DivModUnique(x + 257, 256, q + 1, r + 1 - q);
      assert t == q + 1;
      Digits.DivModUnique(x + t, 256, q, r + 1);
    } else {
      Digits.DivModUnique(x + 257, 256, q, r + 257 - q);
      assert t == q;
      Digits.DivModUnique(x + t, 256, q, r);
    }
  }

  /** `div_255_fast` is monotone on its domain. */
  lemma Div255FastMonotone(x: nat, y: nat)
    requires x <= y <= DIV255_MAX
    ensures Div255Fast(x) <= Div255Fast(y)
  {
    var qx, qy := x / 255, y / 255;
    assert x == 255 * qx + x % 255 && y == 255 * qy + y % 255;
  }
}
