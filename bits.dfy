/**
 * The 64-bit words that make up the allocator's bitmaps, seen bit by bit.
 * A `Word` is the sequence of its 64 bits, bit `k` at index `k`; setting
 * bit `k` (`w | (1 << k)` in the source) is `w[k := true]`, clearing it
 * (`w & !(1 << k)`) is `w[k := false]`, `u64::MAX` is `Full()` and `0` is `Zero()`.
 */
module Bits {

  const WORD_BITS: nat := 64

  type Word = w: seq<bool> | |w| == WORD_BITS witness seq(WORD_BITS, _ => false)

  function Full(): Word { seq(WORD_BITS, _ => true) }
  function Zero(): Word { seq(WORD_BITS, _ => false) }

  /** Number of clear bits (`count_zeros`). */
  function CountClear(w: seq<bool>): nat {
    if |w| == 0 then 0 else CountClear(w[..|w| - 1]) + (if w[|w| - 1] then 0 else 1)
  }

  /** Number of clear bits over a whole bitmap. */
  function Zeros(ws: seq<Word>): nat {
    if |ws| == 0 then 0 else Zeros(ws[..|ws| - 1]) + CountClear(ws[|ws| - 1])
  }

  /** Index of the lowest clear bit at or above `from`, if any. */
  function FirstClearFrom(w: Word, from: nat): (r: nat)
    requires from <= WORD_BITS
    ensures from <= r <= WORD_BITS
    ensures r < WORD_BITS ==> !w[r]
    ensures forall j :: from <= j < r ==> w[j]
    decreases WORD_BITS - from
  {
    if from == WORD_BITS then WORD_BITS
    else if !w[from] then from
    else FirstClearFrom(w, from + 1)
  }

  /** `trailing_ones` of a word that is not `u64::MAX`: the position of its lowest clear bit. */
  function TrailingOnes(w: Word): (k: nat)
    requires w != Full()
    ensures k < WORD_BITS && !w[k]
    ensures forall j :: 0 <= j < k ==> w[j]
  {
    var k := FirstClearFrom(w, 0);
    if k < WORD_BITS then k else assert false; k
  }

  lemma {:induction false} CountClearUpdate(w: seq<bool>, k: nat, b: bool)
    requires k < |w|
    ensures CountClear(w[k := b]) + (if w[k] then 0 else 1) == CountClear(w) + (if b then 0 else 1)
    decreases |w|
  {
    var n := |w|;
    var w' := w[k := b];
    if k == n - 1 {
      assert w'[..n - 1] == w[..n - 1];
    } else {
      assert w'[..n - 1] == w[..n - 1][k := b];
      CountClearUpdate(w[..n - 1], k, b);
    }
  }

  lemma {:induction false} CountClearAllSet(w: seq<bool>)
    requires forall j :: 0 <= j < |w| ==> w[j]
    ensures CountClear(w) == 0
    decreases |w|
  {
    if |w| > 0 {
      CountClearAllSet(w[..|w| - 1]);
    }
  }

  lemma {:induction false} CountClearAllClear(w: seq<bool>)
    requires forall j :: 0 <= j < |w| ==> !w[j]
    ensures CountClear(w) == |w|
    decreases |w|
  {
    if |w| > 0 {
      CountClearAllClear(w[..|w| - 1]);
    }
  }

  lemma {:induction false} CountClearPositive(w: seq<bool>, k: nat)
    requires k < |w| && !w[k]
    ensures CountClear(w) >= 1
  {
    CountClearUpdate(w, k, true);
  }

  lemma FullAndZeroCounts()
    ensures CountClear(Full()) == 0 && CountClear(Zero()) == WORD_BITS
  {
    CountClearAllSet(Full());
    CountClearAllClear(Zero());
  }

  lemma {:induction false} ZerosAppend(a: seq<Word>, b: seq<Word>)
    ensures Zeros(a + b) == Zeros(a) + Zeros(b)
    decreases |b|
  {
    if |b| == 0 {
      assert a + b == a;
    } else {
      assert (a + b)[..|a + b| - 1] == a + b[..|b| - 1];
      ZerosAppend(a, b[..|b| - 1]);
    }
  }

  lemma {:induction false} ZerosUpdate(ws: seq<Word>, i: nat, v: Word)
    requires i < |ws|
    ensures Zeros(ws[i := v]) + CountClear(ws[i]) == Zeros(ws) + CountClear(v)
  {
    assert ws == ws[..i] + [ws[i]] + ws[i + 1..];
    assert ws[i := v] == ws[..i] + [v] + ws[i + 1..];
    ZerosAppend(ws[..i] + [ws[i]], ws[i + 1..]);
    ZerosAppend(ws[..i], [ws[i]]);
    ZerosAppend(ws[..i] + [v], ws[i + 1..]);
    ZerosAppend(ws[..i], [v]);
    assert Zeros([v]) == CountClear(v) by { assert [v][..0] == []; }
    assert Zeros([ws[i]]) == CountClear(ws[i]) by { assert [ws[i]][..0] == []; }
  }

  lemma {:induction false} ZerosAllFull(ws: seq<Word>)
    requires forall i :: 0 <= i < |ws| ==> ws[i] == Full()
    ensures Zeros(ws) == 0
    decreases |ws|
  {
    if |ws| > 0 {
      FullAndZeroCounts();
      ZerosAllFull(ws[..|ws| - 1]);
    }
  }

  lemma {:induction false} ZerosUniform(n: nat, v: Word)
    ensures Zeros(seq(n, _ => v)) == n * CountClear(v)
  {
    if n > 0 {
      assert seq(n, _ => v)[..n - 1] == seq(n - 1, _ => v);
      ZerosUniform(n - 1, v);
    }
  }

  /** A word with a clear bit contributes at least one to the bitmap's count. */
  lemma {:induction false} ZerosPositive(ws: seq<Word>, i: nat, k: nat)
    requires i < |ws| && k < WORD_BITS && !ws[i][k]
    ensures Zeros(ws) >= 1
  {
    CountClearPositive(ws[i], k);
    ZerosUpdate(ws, i, Full());
    FullAndZeroCounts();
  }

  // ---------------------------------------------------------------- bitmaps as bit arrays

  /** Bit `n` of a bitmap: bit `n % 64` of word `n / 64`. */
  function Bit(ws: seq<Word>, n: nat): bool
    requires n < WORD_BITS * |ws|
  {
    ws[n / WORD_BITS][n % WORD_BITS]
  }

  /** The bitmap with bit `n` set to `b`, the `|=` / `&= !` of the source. */
  function SetBit(ws: seq<Word>, n: nat, b: bool): (r: seq<Word>)
    requires n < WORD_BITS * |ws|
    ensures |r| == |ws|
    ensures forall i :: 0 <= i < |ws| && i != n / WORD_BITS ==> r[i] == ws[i]
    ensures r[n / WORD_BITS] == ws[n / WORD_BITS][n % WORD_BITS := b]
  {
    ws[n / WORD_BITS := ws[n / WORD_BITS][n % WORD_BITS := b]]
  }

  /** `ws` with the `n` words from `a` on replaced by `v` (`[a..][..n].fill(v)`). */
  function Fill(ws: seq<Word>, a: nat, n: nat, v: Word): (r: seq<Word>)
    requires a + n <= |ws|
    ensures |r| == |ws|
    ensures forall t :: 0 <= t < |ws| ==> r[t] == if a <= t < a + n then v else ws[t]
  {
    ws[..a] + seq(n, _ => v) + ws[a + n..]
  }

  /** Setting one bit changes that bit and no other. */
  lemma BitOfSetBit(ws: seq<Word>, n: nat, b: bool, m: nat)
    requires n < WORD_BITS * |ws| && m < WORD_BITS * |ws|
    ensures Bit(SetBit(ws, n, b), m) == if m == n then b else Bit(ws, m)
  {
    if m / WORD_BITS == n / WORD_BITS && m % WORD_BITS == n % WORD_BITS {
      assert m == WORD_BITS * (m / WORD_BITS) + m % WORD_BITS;
      assert n == WORD_BITS * (n / WORD_BITS) + n % WORD_BITS;
    }
  }

  /** Setting a clear bit and clearing it again gives back the bitmap. */
  lemma SetBitUndo(ws: seq<Word>, n: nat)
    requires n < WORD_BITS * |ws| && !Bit(ws, n)
    ensures SetBit(SetBit(ws, n, true), n, false) == ws
  {
    assert ws[n / WORD_BITS][n % WORD_BITS := true][n % WORD_BITS := false] == ws[n / WORD_BITS];
  }

  /** Setting a bit to the value it already has changes nothing. */
  lemma SetBitSame(ws: seq<Word>, n: nat, b: bool)
    requires n < WORD_BITS * |ws| && Bit(ws, n) == b
    ensures SetBit(ws, n, b) == ws
  {
    assert ws[n / WORD_BITS][n % WORD_BITS := b] == ws[n / WORD_BITS];
  }

  /** Refilling a block with the value it held gives back the bitmap. */
  lemma FillUndo(ws: seq<Word>, a: nat, n: nat, v: Word, w: Word)
    requires a + n <= |ws| && forall t :: a <= t < a + n ==> ws[t] == v
    ensures Fill(Fill(ws, a, n, w), a, n, v) == ws
  {
    var r := Fill(Fill(ws, a, n, w), a, n, v);
    forall t | 0 <= t < |ws|
      ensures r[t] == ws[t]
    {
    }
  }

  /** Setting a bit that was clear removes one from the count; clearing a set bit adds one. */
  lemma ZerosSetBit(ws: seq<Word>, n: nat, b: bool)
    requires n < WORD_BITS * |ws|
    ensures Zeros(SetBit(ws, n, b)) + (if Bit(ws, n) then 0 else 1) == Zeros(ws) + (if b then 0 else 1)
  {
    var i := n / WORD_BITS;
    ZerosUpdate(ws, i, ws[i][n % WORD_BITS := b]);
    CountClearUpdate(ws[i], n % WORD_BITS, b);
  }

  /** A bitmap has no clear bit exactly when every word is `u64::MAX`. */
  lemma ZerosNoneIffFull(ws: seq<Word>)
    ensures Zeros(ws) == 0 <==> forall i :: 0 <= i < |ws| ==> ws[i] == Full()
  {
    if forall i :: 0 <= i < |ws| ==> ws[i] == Full() {
      ZerosAllFull(ws);
    } else {
      var i :| 0 <= i < |ws| && ws[i] != Full();
      ZerosPositive(ws, i, TrailingOnes(ws[i]));
    }
  }

  /** The count splits over a block of `n` words starting at `a`. */
  lemma ZerosSplit(ws: seq<Word>, a: nat, n: nat)
    requires a + n <= |ws|
    ensures Zeros(ws) == Zeros(ws[..a]) + Zeros(ws[a..a + n]) + Zeros(ws[a + n..])
  {
    var x, y, z := ws[..a], ws[a..a + n], ws[a + n..];
    SliceThree(ws, a, a + n);
    ZerosAppend(x + y, z);
    ZerosAppend(x, y);
  }

  /** A sequence is the concatenation of its three slices at `a` and `b`. */
  lemma SliceThree<T>(s: seq<T>, a: nat, b: nat)
    requires a <= b <= |s|
    ensures s == s[..a] + s[a..b] + s[b..]
  {
  }

  /** Filling a block with `v` replaces the block's count by `n` copies of `v`'s. */
  lemma ZerosFill(ws: seq<Word>, a: nat, n: nat, v: Word)
    requires a + n <= |ws|
    ensures Zeros(Fill(ws, a, n, v)) + Zeros(ws[a..a + n]) == Zeros(ws) + n * CountClear(v)
  {
    var r := Fill(ws, a, n, v);
    ZerosSplit(ws, a, n);
    ZerosSplit(r, a, n);
    assert r[..a] == ws[..a];
    assert r[a + n..] == ws[a + n..];
    assert r[a..a + n] == seq(n, _ => v);
    ZerosUniform(n, v);
  }
}
