/**
 * What the operations of the bitmap frame allocator guarantee: the summary
 * invariant, the counter bookkeeping, first-fit allocation, the round trip
 * of an allocation and its release, and that two allocations never overlap.
 */
module FrameAllocatorProperties {
  import opened Wrappers
  import opened Bits
  import opened FrameAllocatorSpec

  // ---------------------------------------------------------------- bit-level helpers

  /** Filling the eight words of 2 MiB frame `g` sets exactly the bits of its 512 frames. */
  lemma BitOfFillBlock(ws: seq<Word>, g: nat, v: Word, m: nat)
    requires WORDS_PER_2MIB * g + WORDS_PER_2MIB <= |ws| && m < WORD_BITS * |ws|
    ensures Bit(Fill(ws, WORDS_PER_2MIB * g, WORDS_PER_2MIB, v), m)
            == if m / FRAMES_PER_2MIB == g then v[m % WORD_BITS] else Bit(ws, m)
  {
    FrameInBlock(m);
  }

  /** A word of 2 MiB frame `g'` is not the word of a frame of another 2 MiB frame. */
  lemma OtherBlockWord(f: nat, g': nat, t: nat)
    requires f / FRAMES_PER_2MIB != g'
    requires WORDS_PER_2MIB * g' <= t < WORDS_PER_2MIB * g' + WORDS_PER_2MIB
    ensures t != f / WORD_BITS
  {
    FrameInBlock(f);
  }

  lemma FullIsNotZero()
    ensures Full() != Zero()
  {
    assert Full()[0] != Zero()[0];
  }

  /** Where the frames of an address of the given size lie, counted in 4 KiB frames. */
  predicate Covers(addr: nat, size: FrameSize, m: nat) {
    match size
    case Size4KiB => m == addr / SIZE_4KIB
    case Size2MiB => m / FRAMES_PER_2MIB == addr / SIZE_2MIB
  }

  /** The 2 MiB frame a frame of the given size falls in. */
  function BlockOf(addr: nat, size: FrameSize): nat {
    match size
    case Size4KiB => addr / SIZE_4KIB / FRAMES_PER_2MIB
    case Size2MiB => addr / SIZE_2MIB
  }

  // ---------------------------------------------------------------- the summary invariant

  /** After a 4 KiB `set_used_lock`, the summary bit of 2 MiB frame `h` agrees with its words. */
  lemma SetUsed4kSummaryAt(s: Bitmaps, addr: nat, h: nat)
    requires Valid(s) && InRange(s, addr, Size4KiB) && h < Frames2m(s)
    ensures var r := SetUsed(s, addr, Size4KiB).value;
      Used2m(r, h) <==> !BlockZero(r.fourKilo, h)
  {
    var r := SetUsed(s, addr, Size4KiB).value;
    var f := addr / SIZE_4KIB;
    var g := f / FRAMES_PER_2MIB;
    BitOfSetBit(s.twoMega, g, true, h);
    FrameInBlock(f);
    if h == g {
      assert r.fourKilo[f / WORD_BITS][f % WORD_BITS] && !Zero()[f % WORD_BITS];
    } else {
      forall t | WORDS_PER_2MIB * h <= t < WORDS_PER_2MIB * h + WORDS_PER_2MIB
        ensures r.fourKilo[t] == s.fourKilo[t]
      {
        OtherBlockWord(f, h, t);
      }
      assert BlockZero(r.fourKilo, h) == BlockZero(s.fourKilo, h);
      assert Used2m(s, h) <==> !BlockZero(s.fourKilo, h);
    }
  }

  /** After a 2 MiB `set_used_lock`, the summary bit of 2 MiB frame `h` agrees with its words. */
  lemma SetUsed2mSummaryAt(s: Bitmaps, addr: nat, h: nat)
    requires Valid(s) && InRange(s, addr, Size2MiB) && h < Frames2m(s)
    ensures var r := SetUsed(s, addr, Size2MiB).value;
      Used2m(r, h) <==> !BlockZero(r.fourKilo, h)
  {
    var r := SetUsed(s, addr, Size2MiB).value;
    var g := addr / SIZE_2MIB;
    BitOfSetBit(s.twoMega, g, true, h);
    if h == g {
      FullIsNotZero();
      assert r.fourKilo[WORDS_PER_2MIB * g] == Full();
    } else {
      forall t | WORDS_PER_2MIB * h <= t < WORDS_PER_2MIB * h + WORDS_PER_2MIB
        ensures r.fourKilo[t] == s.fourKilo[t]
      {
      }
      assert BlockZero(r.fourKilo, h) == BlockZero(s.fourKilo, h);
      assert Used2m(s, h) <==> !BlockZero(s.fourKilo, h);
    }
  }

  /** `set_used_lock` of either size keeps every summary bit in step with its eight words. */
  lemma SetUsedKeepsSummary(s: Bitmaps, addr: nat, size: FrameSize)
    requires Valid(s) && InRange(s, addr, size)
    ensures Valid(SetUsed(s, addr, size).value)
  {
    var r := SetUsed(s, addr, size).value;
    forall h | 0 <= h < Frames2m(r)
      ensures Used2m(r, h) <==> !BlockZero(r.fourKilo, h)
    {
      match size
      case Size4KiB => SetUsed4kSummaryAt(s, addr, h);
      case Size2MiB => SetUsed2mSummaryAt(s, addr, h);
    }
  }

  /** After a 4 KiB `set_unused_lock`, the summary bit of 2 MiB frame `h` agrees with its words. */
  lemma SetUnused4kSummaryAt(s: Bitmaps, addr: nat, h: nat)
    requires Valid(s) && InRange(s, addr, Size4KiB) && h < Frames2m(s)
    ensures var r := SetUnused(s, addr, Size4KiB).value;
      Used2m(r, h) <==> !BlockZero(r.fourKilo, h)
  {
    var r := SetUnused(s, addr, Size4KiB).value;
    var f := addr / SIZE_4KIB;
    var g := f / FRAMES_PER_2MIB;
    BitOfSetBit(s.twoMega, g, false, h);
    FrameInBlock(f);
    assert Used2m(s, h) <==> !BlockZero(s.fourKilo, h);
    if h == g {
      assert BlockZero(s.fourKilo, g) ==> BlockZero(r.fourKilo, g) by {
        if BlockZero(s.fourKilo, g) {
          assert s.fourKilo[f / WORD_BITS] == Zero();
          assert Zero()[f % WORD_BITS := false] == Zero();
          forall t | WORDS_PER_2MIB * g <= t < WORDS_PER_2MIB * g + WORDS_PER_2MIB
            ensures r.fourKilo[t] == Zero()
          {
          }
        }
      }
    } else {
      forall t | WORDS_PER_2MIB * h <= t < WORDS_PER_2MIB * h + WORDS_PER_2MIB
        ensures r.fourKilo[t] == s.fourKilo[t]
      {
        OtherBlockWord(f, h, t);
      }
      assert BlockZero(r.fourKilo, h) == BlockZero(s.fourKilo, h);
    }
  }

  /** After a 2 MiB `set_unused_lock`, the summary bit of 2 MiB frame `h` agrees with its words. */
  lemma SetUnused2mSummaryAt(s: Bitmaps, addr: nat, h: nat)
    requires Valid(s) && InRange(s, addr, Size2MiB) && h < Frames2m(s)
    ensures var r := SetUnused(s, addr, Size2MiB).value;
      Used2m(r, h) <==> !BlockZero(r.fourKilo, h)
  {
    var r := SetUnused(s, addr, Size2MiB).value;
    var g := addr / SIZE_2MIB;
    BitOfSetBit(s.twoMega, g, false, h);
    if h != g {
      forall t | WORDS_PER_2MIB * h <= t < WORDS_PER_2MIB * h + WORDS_PER_2MIB
        ensures r.fourKilo[t] == s.fourKilo[t]
      {
      }
      assert BlockZero(r.fourKilo, h) == BlockZero(s.fourKilo, h);
      assert Used2m(s, h) <==> !BlockZero(s.fourKilo, h);
    }
  }

  /** `set_unused_lock` of either size keeps every summary bit in step with its eight words. */
  lemma SetUnusedKeepsSummary(s: Bitmaps, addr: nat, size: FrameSize)
    requires Valid(s) && InRange(s, addr, size)
    ensures Valid(SetUnused(s, addr, size).value)
  {
    var r := SetUnused(s, addr, size).value;
    forall h | 0 <= h < Frames2m(r)
      ensures Used2m(r, h) <==> !BlockZero(r.fourKilo, h)
    {
      match size
      case Size4KiB => SetUnused4kSummaryAt(s, addr, h);
      case Size2MiB => SetUnused2mSummaryAt(s, addr, h);
    }
  }

  // ---------------------------------------------------------------- what each operation changes

  /** In range, `set_used_lock` marks exactly the frames of the address used, and their 2 MiB summary bit. */
  lemma SetUsedEffect(s: Bitmaps, addr: nat, size: FrameSize)
    requires WellFormed(s) && InRange(s, addr, size)
    ensures var r := SetUsed(s, addr, size).value;
      && (forall m :: 0 <= m < Frames4k(s) ==> (Used4k(r, m) <==> Covers(addr, size, m) || Used4k(s, m)))
      && (forall g :: 0 <= g < Frames2m(s) ==> (Used2m(r, g) <==> g == BlockOf(addr, size) || Used2m(s, g)))
  {
    var r := SetUsed(s, addr, size).value;
    forall m | 0 <= m < Frames4k(s)
      ensures Used4k(r, m) <==> Covers(addr, size, m) || Used4k(s, m)
    {
      match size
      case Size4KiB => BitOfSetBit(s.fourKilo, addr / SIZE_4KIB, true, m);
      case Size2MiB => BitOfFillBlock(s.fourKilo, addr / SIZE_2MIB, Full(), m);
    }
    forall g | 0 <= g < Frames2m(s)
      ensures Used2m(r, g) <==> g == BlockOf(addr, size) || Used2m(s, g)
    {
      BitOfSetBit(s.twoMega, BlockOf(addr, size), true, g);
    }
  }

  /** In range, `set_unused_lock` marks exactly the frames of the address free. */
  lemma SetUnusedEffect(s: Bitmaps, addr: nat, size: FrameSize)
    requires WellFormed(s) && InRange(s, addr, size)
    ensures var r := SetUnused(s, addr, size).value;
      forall m :: 0 <= m < Frames4k(s) ==> (Used4k(r, m) <==> !Covers(addr, size, m) && Used4k(s, m))
  {
    var r := SetUnused(s, addr, size).value;
    forall m | 0 <= m < Frames4k(s)
      ensures Used4k(r, m) <==> !Covers(addr, size, m) && Used4k(s, m)
    {
      match size
      case Size4KiB => BitOfSetBit(s.fourKilo, addr / SIZE_4KIB, false, m);
      case Size2MiB => BitOfFillBlock(s.fourKilo, addr / SIZE_2MIB, Zero(), m);
    }
  }

  /** Out of range, both operations return `None`; `deallocate_frame` then changes nothing. */
  lemma OutOfRangeRejected(s: Bitmaps, addr: nat, size: FrameSize)
    requires WellFormed(s) && !InRange(s, addr, size)
    ensures SetUsed(s, addr, size).None? && SetUnused(s, addr, size).None?
    ensures Deallocate(s, addr, size) == s
  {
  }

  // ---------------------------------------------------------------- counters

  /** An allowed `set_used_lock` keeps the counters equal to the zero-bit counts. */
  lemma SetUsedKeepsCounts(s: Bitmaps, addr: nat, size: FrameSize)
    requires Valid(s) && CountsAgree(s) && InRange(s, addr, size) && SetUsedAllowed(s, addr, size)
    ensures CountsAgree(SetUsed(s, addr, size).value)
  {
    match size
    case Size4KiB => SetUsed4kKeepsCounts(s, addr);
    case Size2MiB =>
      LargeFrameInRange(s, addr / SIZE_2MIB);
      assert BlockZero(s.fourKilo, addr / SIZE_2MIB);
      SetUsed2mKeepsCounts(s, addr);
  }

  lemma SetUsed4kKeepsCounts(s: Bitmaps, addr: nat)
    requires WellFormed(s) && CountsAgree(s) && InRange(s, addr, Size4KiB)
    requires SetUsedAllowed(s, addr, Size4KiB)
    ensures CountsAgree(SetUsed(s, addr, Size4KiB).value)
  {
    var f := addr / SIZE_4KIB;
    SmallFrameInRange(s, f);
    ZerosSetBit(s.fourKilo, f, true);
    ZerosSetBit(s.twoMega, f / FRAMES_PER_2MIB, true);
  }

  lemma SetUsed2mKeepsCounts(s: Bitmaps, addr: nat)
    requires WellFormed(s) && CountsAgree(s) && InRange(s, addr, Size2MiB)
    requires WORDS_PER_2MIB * (addr / SIZE_2MIB) + WORDS_PER_2MIB <= |s.fourKilo|
    requires BlockZero(s.fourKilo, addr / SIZE_2MIB) && !Bit(s.twoMega, addr / SIZE_2MIB)
    ensures CountsAgree(SetUsed(s, addr, Size2MiB).value)
  {
    var g := addr / SIZE_2MIB;
    LargeFrameInRange(s, g);
    ZerosSetBit(s.twoMega, g, true);
    FillFreeBlock(s.fourKilo, g);
  }

  /** Filling a free 2 MiB frame's eight words with `u64::MAX` removes its 512 clear bits from the count. */
  lemma FillFreeBlock(ws: seq<Word>, g: nat)
    requires WORDS_PER_2MIB * g + WORDS_PER_2MIB <= |ws| && BlockZero(ws, g)
    ensures Zeros(Fill(ws, WORDS_PER_2MIB * g, WORDS_PER_2MIB, Full())) + FRAMES_PER_2MIB == Zeros(ws)
  {
    ZeroBlockCount(ws, g);
    ZerosFill(ws, WORDS_PER_2MIB * g, WORDS_PER_2MIB, Full());
    FullAndZeroCounts();
  }

  /** The eight zero words of a free 2 MiB frame hold 512 clear bits. */
  lemma ZeroBlockCount(ws: seq<Word>, g: nat)
    requires WORDS_PER_2MIB * g + WORDS_PER_2MIB <= |ws| && BlockZero(ws, g)
    ensures Zeros(ws[WORDS_PER_2MIB * g..WORDS_PER_2MIB * g + WORDS_PER_2MIB]) == FRAMES_PER_2MIB
  {
    var first := WORDS_PER_2MIB * g;
    assert ws[first..first + WORDS_PER_2MIB] == seq(WORDS_PER_2MIB, _ => Zero());
    ZerosUniform(WORDS_PER_2MIB, Zero());
    FullAndZeroCounts();
  }

  /** An allowed 4 KiB `set_unused_lock` keeps the counters equal to the zero-bit counts. */
  lemma SetUnused4kKeepsCounts(s: Bitmaps, addr: nat)
    requires WellFormed(s) && CountsAgree(s) && InRange(s, addr, Size4KiB)
    requires SetUnusedAllowed(s, addr, Size4KiB)
    ensures CountsAgree(SetUnused(s, addr, Size4KiB).value)
  {
    var f := addr / SIZE_4KIB;
    FrameInBlock(f);
    ZerosSetBit(s.fourKilo, f, false);
    ZerosSetBit(s.twoMega, f / FRAMES_PER_2MIB, false);
  }

  /**
   * A 2 MiB release adds 512 free frames whatever the eight words held, so
   * the counters stay right exactly when all 512 frames were used before.
   */
  lemma SetUnused2mCounts(s: Bitmaps, addr: nat)
    requires WellFormed(s) && CountsAgree(s) && InRange(s, addr, Size2MiB)
    requires SetUnusedAllowed(s, addr, Size2MiB)
    ensures CountsAgree(SetUnused(s, addr, Size2MiB).value)
            <==> BlockFull(s.fourKilo, addr / SIZE_2MIB)
  {
    var g := addr / SIZE_2MIB;
    LargeFrameInRange(s, g);
    ZerosSetBit(s.twoMega, g, false);
    ClearBlock(s.fourKilo, g);
  }

  /** Clearing a 2 MiB frame's eight words adds 512 clear bits to the count exactly when none was clear before. */
  lemma ClearBlock(ws: seq<Word>, g: nat)
    requires WORDS_PER_2MIB * g + WORDS_PER_2MIB <= |ws|
    ensures Zeros(Fill(ws, WORDS_PER_2MIB * g, WORDS_PER_2MIB, Zero())) == Zeros(ws) + FRAMES_PER_2MIB
            <==> BlockFull(ws, g)
  {
    ZerosFill(ws, WORDS_PER_2MIB * g, WORDS_PER_2MIB, Zero());
    FullAndZeroCounts();
    FullBlockCount(ws, g);
  }

  /** The eight words of a 2 MiB frame are all `u64::MAX` exactly when they hold no clear bit. */
  lemma FullBlockCount(ws: seq<Word>, g: nat)
    requires WORDS_PER_2MIB * g + WORDS_PER_2MIB <= |ws|
    ensures BlockFull(ws, g) <==> Zeros(ws[WORDS_PER_2MIB * g..WORDS_PER_2MIB * g + WORDS_PER_2MIB]) == 0
  {
    var first := WORDS_PER_2MIB * g;
    var block := ws[first..first + WORDS_PER_2MIB];
    ZerosNoneIffFull(block);
    if forall i :: 0 <= i < |block| ==> block[i] == Full() {
      forall t | first <= t < first + WORDS_PER_2MIB
        ensures ws[t] == Full()
      {
        assert block[t - first] == ws[t];
      }
    }
  }

  // ---------------------------------------------------------------- first-fit allocation

  /** The bitmap an allocation of the given size scans. */
  function BitmapOf(s: Bitmaps, size: FrameSize): seq<Word> {
    match size
    case Size4KiB => s.fourKilo
    case Size2MiB => s.twoMega
  }

  /** The hint an allocation of the given size starts from. */
  function HintOf(s: Bitmaps, size: FrameSize): nat {
    match size
    case Size4KiB => s.next4kGuess
    case Size2MiB => s.next2mGuess
  }

  /**
   * `allocate_frame` returns the aligned address of the lowest clear bit at or
   * after the hint's word, and marks it used; `None` only when every bit from
   * the hint's word on is set, and then nothing changes.
   */
  lemma AllocateFirstFit(s: Bitmaps, size: FrameSize)
    requires WellFormed(s)
    ensures var (a, r) := Allocate(s, size);
      var ws := BitmapOf(s, size);
      var lo := WORD_BITS * HintOf(s, size);
      match a
      case Some(addr) =>
        var n := addr / SizeBytes(size);
        && addr % SizeBytes(size) == 0
        && lo <= n < WORD_BITS * |ws|
        && !Bit(ws, n)
        && (forall m :: lo <= m < n ==> Bit(ws, m))
        && Bit(BitmapOf(r, size), n)
      case None =>
        && r == s
        && forall m :: lo <= m < WORD_BITS * |ws| ==> Bit(ws, m)
  {
    var ws := BitmapOf(s, size);
    var from := HintOf(s, size);
    match FirstNotFull(ws, from)
    case None =>
      FullWordsSet(ws, from, |ws|);
    case Some(i) =>
      CandidateFrame(s, size);
      CandidateInRange(s, size);
      var n := WORD_BITS * i + TrailingOnes(ws[i]);
      FullWordsSet(ws, from, i);
      forall m | WORD_BITS * i <= m < n
        ensures Bit(ws, m)
      {
        assert m / WORD_BITS == i;
      }
      match size
      case Size4KiB => BitOfSetBit(s.fourKilo, n, true, n);
      case Size2MiB => BitOfSetBit(s.twoMega, n, true, n);
  }

  /** Every bit of the full words `from .. to` is set. */
  lemma FullWordsSet(ws: seq<Word>, from: nat, to: nat)
    requires from <= to <= |ws| && forall j :: from <= j < to ==> ws[j] == Full()
    ensures forall m :: WORD_BITS * from <= m < WORD_BITS * to ==> Bit(ws, m)
  {
    forall m | WORD_BITS * from <= m < WORD_BITS * to
      ensures Bit(ws, m)
    {
      assert from <= m / WORD_BITS < to;
    }
  }

  /** With sound hints, first fit from the hint is first fit from frame 0. */
  lemma AllocateLowestFree(s: Bitmaps, size: FrameSize)
    requires WellFormed(s) && HintsSound(s)
    ensures var (a, r) := Allocate(s, size);
      var ws := BitmapOf(s, size);
      match a
      case Some(addr) => forall m :: 0 <= m < addr / SizeBytes(size) ==> Bit(ws, m)
      case None => forall m :: 0 <= m < WORD_BITS * |ws| ==> Bit(ws, m)
  {
    AllocateFirstFit(s, size);
    var ws := BitmapOf(s, size);
    var lo := WORD_BITS * HintOf(s, size);
    forall m | 0 <= m < lo && m < WORD_BITS * |ws|
      ensures Bit(ws, m)
    {
      assert ws[m / WORD_BITS] == Full();
    }
  }

  /** With sound hints, a failed scan means every word of the bitmap is `u64::MAX`, so its count is zero. */
  lemma NothingFoundMeansExhausted(s: Bitmaps, size: FrameSize)
    requires WellFormed(s) && HintsSound(s) && Candidate(s, size).None?
    ensures Zeros(BitmapOf(s, size)) == 0
  {
    var ws := BitmapOf(s, size);
    assert FirstNotFull(ws, HintOf(s, size)).None?;
    forall i | 0 <= i < |ws|
      ensures ws[i] == Full()
    {
    }
    ZerosAllFull(ws);
  }

  /** Under the summary invariant, a clear summary bit means its 512 frames are counted free. */
  lemma FreeBlockCounted(s: Bitmaps, g: nat)
    requires Valid(s) && g < Frames2m(s) && !Used2m(s, g)
    ensures BlockZero(s.fourKilo, g)
    ensures Zeros(s.fourKilo) >= FRAMES_PER_2MIB
  {
    var first := WORDS_PER_2MIB * g;
    ZerosSplit(s.fourKilo, first, WORDS_PER_2MIB);
    assert s.fourKilo[first..first + WORDS_PER_2MIB] == seq(WORDS_PER_2MIB, _ => Zero());
    ZerosUniform(WORDS_PER_2MIB, Zero());
    FullAndZeroCounts();
  }

  /** With the invariants, every debug assertion `allocate_frame` reaches holds. */
  lemma AllocateAllowedHolds(s: Bitmaps, size: FrameSize)
    requires Valid(s) && CountsAgree(s) && HintsSound(s)
    ensures AllocateAllowed(s, size)
  {
    match Candidate(s, size)
    case None =>
      NothingFoundMeansExhausted(s, size);
    case Some(addr) =>
      AllocateFirstFit(s, size);
      CandidateInRange(s, size);
      match size
      case Size4KiB =>
        var f := addr / SIZE_4KIB;
        ZerosPositive(s.fourKilo, f / WORD_BITS, f % WORD_BITS);
        var g := f / FRAMES_PER_2MIB;
        if !Used2m(s, g) {
          ZerosPositive(s.twoMega, g / WORD_BITS, g % WORD_BITS);
        }
      case Size2MiB =>
        var g := addr / SIZE_2MIB;
        ZerosPositive(s.twoMega, g / WORD_BITS, g % WORD_BITS);
        FreeBlockCounted(s, g);
  }

  /** An allocation keeps the hints lower bounds on the first word with a clear bit. */
  lemma AllocateKeepsHints(s: Bitmaps, size: FrameSize)
    requires WellFormed(s) && HintsSound(s)
    ensures HintsSound(Allocate(s, size).1)
  {
    if Candidate(s, size).Some? {
      CandidateFrame(s, size);
      CandidateInRange(s, size);
      match size
      case Size4KiB => Allocate4kKeepsHints(s);
      case Size2MiB => Allocate2mKeepsHints(s);
    }
  }

  /** The picked address is the frame `64 i + k` of the scanned bitmap, `i` the first word that is not full and `k` its first clear bit. */
  lemma CandidateFrame(s: Bitmaps, size: FrameSize)
    requires Candidate(s, size).Some?
    ensures var ws := BitmapOf(s, size);
      var i := FirstNotFull(ws, HintOf(s, size)).value;
      var n := Candidate(s, size).value / SizeBytes(size);
      && Candidate(s, size).value == n * SizeBytes(size)
      && Candidate(s, size).value % SizeBytes(size) == 0
      && n == WORD_BITS * i + TrailingOnes(ws[i])
      && n / WORD_BITS == i && n % WORD_BITS == TrailingOnes(ws[i])
  {
    var ws := BitmapOf(s, size);
    var i := FirstNotFull(ws, HintOf(s, size)).value;
    var n := WORD_BITS * i + TrailingOnes(ws[i]);
    assert Candidate(s, size).value == n * SizeBytes(size);
    assert n * SizeBytes(size) / SizeBytes(size) == n;
  }

  /** Setting a bit keeps every full word full. */
  lemma SetBitKeepsFull(ws: seq<Word>, n: nat)
    requires n < WORD_BITS * |ws|
    ensures forall t :: 0 <= t < |ws| && ws[t] == Full() ==> SetBit(ws, n, true)[t] == Full()
  {
    assert Full()[n % WORD_BITS := true] == Full();
  }

  lemma Allocate4kKeepsHints(s: Bitmaps)
    requires WellFormed(s) && HintsSound(s) && Candidate(s, Size4KiB).Some?
    requires InRange(s, Candidate(s, Size4KiB).value, Size4KiB)
    requires Candidate(s, Size4KiB).value / SIZE_4KIB / WORD_BITS == FirstNotFull(s.fourKilo, s.next4kGuess).value
    ensures HintsSound(Allocate(s, Size4KiB).1)
  {
    var f := Candidate(s, Size4KiB).value / SIZE_4KIB;
    SmallFrameInRange(s, f);
    SetBitKeepsFull(s.fourKilo, f);
    SetBitKeepsFull(s.twoMega, f / FRAMES_PER_2MIB);
  }

  lemma Allocate2mKeepsHints(s: Bitmaps)
    requires WellFormed(s) && HintsSound(s) && Candidate(s, Size2MiB).Some?
    requires InRange(s, Candidate(s, Size2MiB).value, Size2MiB)
    requires Candidate(s, Size2MiB).value / SIZE_2MIB / WORD_BITS == FirstNotFull(s.twoMega, s.next2mGuess).value
    ensures HintsSound(Allocate(s, Size2MiB).1)
  {
    var r := Allocate(s, Size2MiB).1;
    var g := Candidate(s, Size2MiB).value / SIZE_2MIB;
    LargeFrameInRange(s, g);
    SetBitKeepsFull(s.twoMega, g);
    forall t | 0 <= t < r.next4kGuess && t < |r.fourKilo|
      ensures r.fourKilo[t] == Full()
    {
    }
  }

  /** Allocation keeps the summary invariant, the counters and the hints. */
  lemma AllocateKeepsInvariants(s: Bitmaps, size: FrameSize)
    requires Valid(s) && CountsAgree(s) && HintsSound(s)
    ensures var r := Allocate(s, size).1; Valid(r) && CountsAgree(r) && HintsSound(r)
  {
    AllocateKeepsHints(s, size);
    match Candidate(s, size)
    case None =>
    case Some(addr) =>
      CandidateInRange(s, size);
      AllocateAllowedHolds(s, size);
      SetUsedKeepsSummary(s, addr, size);
      SetUsedKeepsCounts(s, addr, size);
  }

  /** Each successful allocation lowers `get_free_memory_size` by the frame's size. */
  lemma AllocateFreeMemory(s: Bitmaps, size: FrameSize)
    requires Valid(s) && CountsAgree(s) && HintsSound(s)
    ensures var (a, r) := Allocate(s, size);
      match a
      case Some(_) => FreeMemorySize(r) == FreeMemorySize(s) - SizeBytes(size)
      case None => r == s && (size == Size4KiB ==> FreeMemorySize(s) == 0)
  {
    AllocateAllowedHolds(s, size);
  }

  /** A 2 MiB allocation takes a block whose 512 frames were all free, and marks all of them used. */
  lemma LargeFrameAtomic(s: Bitmaps)
    requires Valid(s)
    ensures var (a, r) := Allocate(s, Size2MiB);
      a.Some? ==> forall m :: 0 <= m < Frames4k(s) && Covers(a.value, Size2MiB, m) ==> !Used4k(s, m) && Used4k(r, m)
  {
    var (a, r) := Allocate(s, Size2MiB);
    if a.Some? {
      var g := a.value / SIZE_2MIB;
      AllocateFirstFit(s, Size2MiB);
      CandidateInRange(s, Size2MiB);
      SetUsedEffect(s, a.value, Size2MiB);
      FreeBlockCounted(s, g);
      forall m | 0 <= m < Frames4k(s) && Covers(a.value, Size2MiB, m)
        ensures !Used4k(s, m)
      {
        FrameInBlock(m);
        assert s.fourKilo[m / WORD_BITS] == Zero();
      }
    }
  }

  /** Every 4 KiB frame an allocation hands out was free before and is used after. */
  lemma AllocateTakesFreeFrames(s: Bitmaps, size: FrameSize)
    requires Valid(s)
    ensures var (a, r) := Allocate(s, size);
      a.Some? ==> forall m :: 0 <= m < Frames4k(s) && Covers(a.value, size, m) ==> !Used4k(s, m) && Used4k(r, m)
  {
    match size
    case Size2MiB => LargeFrameAtomic(s);
    case Size4KiB =>
      var (a, r) := Allocate(s, size);
      AllocateFirstFit(s, size);
      if a.Some? {
        CandidateInRange(s, size);
        SetUsedEffect(s, a.value, size);
      }
  }

  /** A frame of a tracked allocation lies in the tracked range, so overlap can be found at frame level. */
  lemma CoveredFrame(addr: nat, size: FrameSize, x: nat)
    requires addr % SizeBytes(size) == 0 && addr <= x < addr + SizeBytes(size)
    ensures Covers(addr, size, x / SIZE_4KIB)
  {
    match size
    case Size4KiB =>
    case Size2MiB =>
      var g := addr / SIZE_2MIB;
      assert addr == SIZE_2MIB * g;
      assert x / SIZE_4KIB / FRAMES_PER_2MIB == x / SIZE_2MIB;
  }

  /** No double allocation: two allocations in a row hand out non-overlapping frames. */
  lemma AllocationsDisjoint(s: Bitmaps, size1: FrameSize, size2: FrameSize)
    requires Valid(s)
    ensures var (a1, s1) := Allocate(s, size1);
      WellFormed(s1) &&
      var (a2, s2) := Allocate(s1, size2);
      a1.Some? && a2.Some? ==>
        a1.value + SizeBytes(size1) <= a2.value || a2.value + SizeBytes(size2) <= a1.value
  {
    var a1 := Allocate(s, size1).0;
    var s1 := Allocate(s, size1).1;
    AllocateKeepsValid(s, size1);
    var a2 := Allocate(s1, size2).0;
    if a1.Some? && a2.Some? {
      if !(a1.value + SizeBytes(size1) <= a2.value || a2.value + SizeBytes(size2) <= a1.value) {
        var x := if a1.value <= a2.value then a2.value else a1.value;
        CandidateFrame(s, size1);
        CandidateFrame(s1, size2);
        CoveredFrame(a1.value, size1, x);
        CoveredFrame(a2.value, size2, x);
        TakenFrame(s, size1, x / SIZE_4KIB);
        TakenFrame(s1, size2, x / SIZE_4KIB);
        assert false;
      }
    }
  }

  /** A 4 KiB frame covered by an allocation was free before it and is used after it. */
  lemma TakenFrame(s: Bitmaps, size: FrameSize, m: nat)
    requires Valid(s) && Candidate(s, size).Some? && Covers(Candidate(s, size).value, size, m)
    ensures m < Frames4k(s) && m < Frames4k(Allocate(s, size).1)
    ensures !Used4k(s, m) && Used4k(Allocate(s, size).1, m)
  {
    CandidateInRange(s, size);
    CoveredInRange(s, Candidate(s, size).value, size, m);
    AllocateTakesFreeFrames(s, size);
  }

  /** An allocation keeps the summary invariant. */
  lemma AllocateKeepsValid(s: Bitmaps, size: FrameSize)
    requires Valid(s)
    ensures Valid(Allocate(s, size).1)
  {
    if Candidate(s, size).Some? {
      CandidateInRange(s, size);
      SetUsedKeepsSummary(s, Candidate(s, size).value, size);
    }
  }

  /** A 4 KiB frame of an address in range is a tracked frame. */
  lemma CoveredInRange(s: Bitmaps, addr: nat, size: FrameSize, m: nat)
    requires WellFormed(s) && InRange(s, addr, size) && Covers(addr, size, m)
    ensures m < Frames4k(s)
  {
    match size
    case Size4KiB => SmallFrameInRange(s, m);
    case Size2MiB =>
      var g := addr / SIZE_2MIB;
      LargeFrameInRange(s, g);
      FrameInBlock(m);
      assert m == WORD_BITS * (m / WORD_BITS) + m % WORD_BITS;
  }

  // ---------------------------------------------------------------- release and round trips

  /** `deallocate_frame` keeps the summary invariant and the hints. */
  lemma DeallocateKeepsInvariants(s: Bitmaps, addr: nat, size: FrameSize)
    requires Valid(s)
    ensures Valid(Deallocate(s, addr, size))
    ensures HintsSound(s) ==> HintsSound(Deallocate(s, addr, size))
  {
    if InRange(s, addr, size) {
      SetUnusedKeepsSummary(s, addr, size);
      if HintsSound(s) {
        match size
        case Size4KiB => SetUnused4kKeepsHints(s, addr);
        case Size2MiB => SetUnused2mKeepsHints(s, addr);
      }
    }
  }

  /** A 4 KiB release lowers each hint to at most the word it cleared, so the words below stay full. */
  lemma SetUnused4kKeepsHints(s: Bitmaps, addr: nat)
    requires WellFormed(s) && HintsSound(s) && InRange(s, addr, Size4KiB)
    ensures HintsSound(SetUnused(s, addr, Size4KiB).value)
  {
    var r := SetUnused(s, addr, Size4KiB).value;
    var f := addr / SIZE_4KIB;
    var g := f / FRAMES_PER_2MIB;
    SmallFrameInRange(s, f);
    forall t | 0 <= t < r.next4kGuess && t < |r.fourKilo|
      ensures r.fourKilo[t] == Full()
    {
      assert t < f / WORD_BITS && t < s.next4kGuess;
    }
    forall t | 0 <= t < r.next2mGuess && t < |r.twoMega|
      ensures r.twoMega[t] == Full()
    {
      assert t < s.next2mGuess;
      if r.twoMega != s.twoMega {
        assert t < g / WORD_BITS;
      }
    }
  }

  /** A 2 MiB release lowers each hint to at most the first word it cleared, so the words below stay full. */
  lemma SetUnused2mKeepsHints(s: Bitmaps, addr: nat)
    requires WellFormed(s) && HintsSound(s) && InRange(s, addr, Size2MiB)
    ensures HintsSound(SetUnused(s, addr, Size2MiB).value)
  {
    var r := SetUnused(s, addr, Size2MiB).value;
    var g := addr / SIZE_2MIB;
    LargeFrameInRange(s, g);
    forall t | 0 <= t < r.next4kGuess && t < |r.fourKilo|
      ensures r.fourKilo[t] == Full()
    {
      assert t < WORDS_PER_2MIB * g && t < s.next4kGuess;
    }
    forall t | 0 <= t < r.next2mGuess && t < |r.twoMega|
      ensures r.twoMega[t] == Full()
    {
      assert t < g / WORD_BITS && t < s.next2mGuess;
    }
  }

  /** Allocating a 4 KiB frame and releasing it restores both bitmaps and both counters. */
  lemma RoundTrip4k(s: Bitmaps)
    requires Valid(s)
    ensures var (a, r) := Allocate(s, Size4KiB);
      a.Some? ==>
        var t := Deallocate(r, a.value, Size4KiB);
        && t.fourKilo == s.fourKilo && t.twoMega == s.twoMega
        && t.free4k == s.free4k && t.free2m == s.free2m
        && (HintsSound(s) ==> HintsSound(t))
  {
    if Candidate(s, Size4KiB).Some? {
      var addr := Candidate(s, Size4KiB).value;
      CandidateFrame(s, Size4KiB);
      CandidateInRange(s, Size4KiB);
      SetUsedThenUnused4k(s, addr);
      if HintsSound(s) {
        AllocateKeepsHints(s, Size4KiB);
        AllocateKeepsValid(s, Size4KiB);
        DeallocateKeepsInvariants(Allocate(s, Size4KiB).1, addr, Size4KiB);
      }
    }
  }

  /** Marking a free 4 KiB frame used and then free again restores both bitmaps and both counters. */
  lemma SetUsedThenUnused4k(s: Bitmaps, addr: nat)
    requires Valid(s) && InRange(s, addr, Size4KiB) && !Bit(s.fourKilo, addr / SIZE_4KIB)
    ensures var t := SetUnused(SetUsed(s, addr, Size4KiB).value, addr, Size4KiB).value;
      && t.fourKilo == s.fourKilo && t.twoMega == s.twoMega
      && t.free4k == s.free4k && t.free2m == s.free2m
  {
    var f := addr / SIZE_4KIB;
    var g := f / FRAMES_PER_2MIB;
    SmallFrameInRange(s, f);
    FrameInBlock(f);
    SetBitUndo(s.fourKilo, f);
    if BlockZero(s.fourKilo, g) {
      SetBitUndo(s.twoMega, g);
    } else {
      SetBitSame(s.twoMega, g, true);
    }
  }

  /** Allocating a 2 MiB frame and releasing it restores both bitmaps and both counters. */
  lemma RoundTrip2m(s: Bitmaps)
    requires Valid(s)
    ensures var (a, r) := Allocate(s, Size2MiB);
      a.Some? ==>
        var t := Deallocate(r, a.value, Size2MiB);
        && t.fourKilo == s.fourKilo && t.twoMega == s.twoMega
        && t.free4k == s.free4k && t.free2m == s.free2m
        && (HintsSound(s) ==> HintsSound(t))
  {
    if Candidate(s, Size2MiB).Some? {
      var addr := Candidate(s, Size2MiB).value;
      CandidateFrame(s, Size2MiB);
      CandidateInRange(s, Size2MiB);
      SetUsedThenUnused2m(s, addr);
      if HintsSound(s) {
        AllocateKeepsHints(s, Size2MiB);
        AllocateKeepsValid(s, Size2MiB);
        DeallocateKeepsInvariants(Allocate(s, Size2MiB).1, addr, Size2MiB);
      }
    }
  }

  /** Marking a free 2 MiB frame used and then free again restores both bitmaps and both counters. */
  lemma SetUsedThenUnused2m(s: Bitmaps, addr: nat)
    requires Valid(s) && InRange(s, addr, Size2MiB) && !Bit(s.twoMega, addr / SIZE_2MIB)
    ensures var t := SetUnused(SetUsed(s, addr, Size2MiB).value, addr, Size2MiB).value;
      && t.fourKilo == s.fourKilo && t.twoMega == s.twoMega
      && t.free4k == s.free4k && t.free2m == s.free2m
  {
    var g := addr / SIZE_2MIB;
    LargeFrameInRange(s, g);
    FreeBlockCounted(s, g);
    FillUndo(s.fourKilo, WORDS_PER_2MIB * g, WORDS_PER_2MIB, Zero(), Full());
    SetBitUndo(s.twoMega, g);
  }
}
