/**
 * What `BitmapFrameAllocator::init` establishes, at the level of values:
 * the state it starts from, the free loop that releases the usable frames
 * at or above the low-memory limit one 4 KiB frame at a time, and the
 * re-marking of the two frames that hold the bitmaps themselves.
 */
module FrameInit {
  import opened Wrappers
  import opened Bits
  import opened Digits
  import opened FrameAllocatorSpec
  import opened FrameAllocatorProperties
  import opened FramePlacement

  /** `[u64; 512]`: words of the 2 MiB bitmap. */
  const TWO_MEGA_WORDS: nat := 512
  /** `[u64; 262_144]`: words of the 4 KiB bitmap, 64 GiB of memory. */
  const FOUR_KILO_WORDS: nat := 262144
  /** 4 KiB frames the bitmap tracks. */
  const TRACKED_FRAMES: nat := WORD_BITS * FOUR_KILO_WORDS

  /** The state after both bitmaps are filled with `u64::MAX`, the hints at the ends and the counters zero. */
  function Initial(): (s: Bitmaps)
    ensures WellFormed(s) && |s.fourKilo| == FOUR_KILO_WORDS && |s.twoMega| == TWO_MEGA_WORDS
  {
    Bitmaps(seq(FOUR_KILO_WORDS, _ => Full()), seq(TWO_MEGA_WORDS, _ => Full()),
            0, 0, FOUR_KILO_WORDS, TWO_MEGA_WORDS)
  }

  /** Every frame is used at first, and all the invariants hold. */
  lemma InitialSound()
    ensures var s := Initial();
      && Valid(s) && CountsAgree(s) && HintsSound(s)
      && forall m :: 0 <= m < Frames4k(s) ==> Used4k(s, m)
  {
    var s := Initial();
    ZerosAllFull(s.fourKilo);
    ZerosAllFull(s.twoMega);
    forall g | 0 <= g < Frames2m(s)
      ensures Used2m(s, g) && !BlockZero(s.fourKilo, g)
    {
      assert s.fourKilo[WORDS_PER_2MIB * g] == Full();
      assert Full()[0] != Zero()[0];
    }
  }

  /** Frame `m` has been released once the loop reaches frame `f` of region `i`. */
  predicate Released(regions: seq<MemoryRegion>, low: nat, i: nat, f: nat, m: nat)
    requires i <= |regions|
  {
    ReleasedIn(regions[..i], low, m) || (i < |regions| && ReleasedBy(regions[i], low, m) && m < f)
  }

  /** The free loop's invariant: a frame is used exactly when it has not been released yet. */
  ghost predicate FreedExactly(s: Bitmaps, regions: seq<MemoryRegion>, low: nat, i: nat, f: nat)
    requires i <= |regions|
  {
    forall m :: 0 <= m < Frames4k(s) ==> (Used4k(s, m) <==> !Released(regions, low, i, f, m))
  }

  /** The `.expect` of the free loop: every frame released lies inside the tracked range. */
  ghost predicate ReleasesTracked(regions: seq<MemoryRegion>, low: nat, frames: nat) {
    forall m: nat :: ReleasedIn(regions, low, m) ==> m < frames
  }

  /** Before the loop nothing has been released. */
  lemma StartFreed(s: Bitmaps, regions: seq<MemoryRegion>, low: nat)
    requires WellFormed(s) && forall m :: 0 <= m < Frames4k(s) ==> Used4k(s, m)
    ensures FreedExactly(s, regions, low, 0, 0)
  {
    assert regions[..0] == [];
  }

  /**
   * One step of the free loop: frame `f` of region `i` is still used and in
   * range, so `set_unused_lock` accepts it, keeps every invariant and
   * releases exactly that frame.
   */
  lemma ReleaseStep(s: Bitmaps, regions: seq<MemoryRegion>, low: nat, i: nat, f: nat)
    requires Valid(s) && CountsAgree(s) && HintsSound(s)
    requires i < |regions| && ReleasedBy(regions[i], low, f)
    requires ReleasesDisjoint(regions, low) && f < Frames4k(s)
    requires FreedExactly(s, regions, low, i, f)
    ensures InRange(s, f * SIZE_4KIB, Size4KiB) && SetUnusedAllowed(s, f * SIZE_4KIB, Size4KiB)
    ensures var r := SetUnused(s, f * SIZE_4KIB, Size4KiB).value;
      && Valid(r) && CountsAgree(r) && HintsSound(r)
      && FreedExactly(r, regions, low, i, f + 1)
  {
    var addr := f * SIZE_4KIB;
    assert addr / SIZE_4KIB == f;
    assert !ReleasedIn(regions[..i], low, f);
    assert Used4k(s, f);
    var r := SetUnused(s, addr, Size4KiB).value;
    SetUnusedKeepsSummary(s, addr, Size4KiB);
    SetUnused4kKeepsCounts(s, addr);
    DeallocateKeepsInvariants(s, addr, Size4KiB);
    SetUnusedEffect(s, addr, Size4KiB);
  }

  /** A frame below the low-memory limit is skipped: nothing changes. */
  lemma SkipStep(s: Bitmaps, regions: seq<MemoryRegion>, low: nat, i: nat, f: nat)
    requires i < |regions| && !ReleasedBy(regions[i], low, f)
    requires FreedExactly(s, regions, low, i, f)
    ensures FreedExactly(s, regions, low, i, f + 1)
  {
  }

  /** Past the end of region `i` the loop moves to the next region. */
  lemma RegionDone(s: Bitmaps, regions: seq<MemoryRegion>, low: nat, i: nat, f: nat)
    requires i < |regions| && (regions[i].kind == Usable ==> EndFrame(regions[i]) <= f)
    requires FreedExactly(s, regions, low, i, f)
    ensures FreedExactly(s, regions, low, i + 1, 0)
  {
    assert regions[..i + 1][..i] == regions[..i];
  }

  /** After the last region, the released frames are those of the whole map. */
  lemma AllRegionsDone(s: Bitmaps, regions: seq<MemoryRegion>, low: nat)
    requires FreedExactly(s, regions, low, |regions|, 0)
    ensures forall m :: 0 <= m < Frames4k(s) ==> (Used4k(s, m) <==> !ReleasedIn(regions, low, m))
  {
    assert regions[..|regions|] == regions;
  }

  /** A 2 MiB frame whose 512 frames are all free has all eight words zero. */
  lemma AllFreeBlockZero(s: Bitmaps, g: nat)
    requires WellFormed(s) && g < Frames2m(s)
    requires forall m :: FRAMES_PER_2MIB * g <= m < FRAMES_PER_2MIB * g + FRAMES_PER_2MIB ==> !Used4k(s, m)
    ensures BlockZero(s.fourKilo, g)
  {
    forall t | WORDS_PER_2MIB * g <= t < WORDS_PER_2MIB * g + WORDS_PER_2MIB
      ensures s.fourKilo[t] == Zero()
    {
      forall k | 0 <= k < WORD_BITS
        ensures !s.fourKilo[t][k]
      {
        var m := WORD_BITS * t + k;
        assert m / WORD_BITS == t && m % WORD_BITS == k;
        FrameInBlock(m);
        assert !Used4k(s, m);
      }
    }
  }

  /** The frames of the storage: the 2 MiB frame of the 4 KiB bitmap and the 4 KiB frame of the 2 MiB bitmap. */
  predicate Storage(p: Placement, m: nat) {
    Covers(p.fourKiloBitmap, Size2MiB, m) || Covers(p.twoMegaBitmap, Size4KiB, m)
  }

  /** The 4 KiB frames of an aligned 2 MiB frame at `a` are `a / 4096` up to 512 frames on. */
  lemma LargeFrameSpan(a: nat, m: nat)
    requires a % SIZE_2MIB == 0 && Covers(a, Size2MiB, m)
    ensures a % SIZE_4KIB == 0 && a / SIZE_4KIB <= m && m * SIZE_4KIB < a + SIZE_2MIB
  {
    var g := a / SIZE_2MIB;
    assert a == SIZE_4KIB * (FRAMES_PER_2MIB * g);
    assert m < FRAMES_PER_2MIB * g + FRAMES_PER_2MIB;
  }

  /** Every frame of the 2 MiB frame chosen for the 4 KiB bitmap is released by the free loop. */
  lemma LargeStorageReleased(regions: seq<MemoryRegion>, low: nat, m: nat)
    requires ChooseRegion(regions, low).Some?
    requires var p := GetBitflagFrames(Max(ChooseRegion(regions, low).value.start, low));
      Covers(p.fourKiloBitmap, Size2MiB, m)
    ensures ReleasedIn(regions, low, m)
  {
    var region := ChooseRegion(regions, low).value;
    var i :| 0 <= i < |regions| && regions[i] == region;
    var p := GetBitflagFrames(Max(region.start, low));
    ChosenRegionHoldsBitmaps(regions, low);
    PlacementSound(Max(region.start, low));
    var a := p.fourKiloBitmap;
    LargeFrameSpan(a, m);
    RangeReleased(region, low, a, SIZE_2MIB, m);
    ReleasedInMember(regions, low, i, m);
  }

  /**
   * Re-marking the 2 MiB frame of the 4 KiB bitmap: every one of its frames
   * was released, so the frame is free, in range, and the counters can drop.
   */
  lemma MarkLargeStorage(s: Bitmaps, regions: seq<MemoryRegion>, low: nat)
    requires Valid(s) && CountsAgree(s)
    requires ChooseRegion(regions, low).Some?
    requires ReleasesTracked(regions, low, Frames4k(s))
    requires forall m :: 0 <= m < Frames4k(s) ==> (Used4k(s, m) <==> !ReleasedIn(regions, low, m))
    ensures var p := GetBitflagFrames(Max(ChooseRegion(regions, low).value.start, low));
      && InRange(s, p.fourKiloBitmap, Size2MiB)
      && SetUsedAllowed(s, p.fourKiloBitmap, Size2MiB)
  {
    var p := GetBitflagFrames(Max(ChooseRegion(regions, low).value.start, low));
    var g := p.fourKiloBitmap / SIZE_2MIB;
    forall m | FRAMES_PER_2MIB * g <= m < FRAMES_PER_2MIB * g + FRAMES_PER_2MIB
      ensures ReleasedIn(regions, low, m) && m < Frames4k(s)
    {
      LargeStorageReleased(regions, low, m);
    }
    assert g < Frames2m(s) by {
      var last := FRAMES_PER_2MIB * g + FRAMES_PER_2MIB - 1;
      assert ReleasedIn(regions, low, last);
    }
    AllFreeBlockZero(s, g);
    assert !Used2m(s, g);
    FreeBlockCounted(s, g);
    ZerosPositive(s.twoMega, g / WORD_BITS, g % WORD_BITS);
  }

  /**
   * Re-marking the 4 KiB frame of the 2 MiB bitmap after the large frame:
   * that frame was released and lies outside the large frame, so it is still
   * free, in range, and the counters can drop.
   */
  lemma MarkSmallStorage(s: Bitmaps, regions: seq<MemoryRegion>, low: nat)
    requires Valid(s) && CountsAgree(s)
    requires ChooseRegion(regions, low).Some?
    requires ReleasesTracked(regions, low, Frames4k(s))
    requires forall m :: 0 <= m < Frames4k(s) ==> (Used4k(s, m) <==> !ReleasedIn(regions, low, m))
    ensures var p := GetBitflagFrames(Max(ChooseRegion(regions, low).value.start, low));
      && InRange(s, p.fourKiloBitmap, Size2MiB)
      && var s1 := SetUsed(s, p.fourKiloBitmap, Size2MiB).value;
      && Valid(s1) && CountsAgree(s1)
      && InRange(s1, p.twoMegaBitmap, Size4KiB)
      && SetUsedAllowed(s1, p.twoMegaBitmap, Size4KiB)
  {
    var region := ChooseRegion(regions, low).value;
    var i :| 0 <= i < |regions| && regions[i] == region;
    var p := GetBitflagFrames(Max(region.start, low));
    MarkLargeStorage(s, regions, low);
    ChosenRegionHoldsBitmaps(regions, low);
    PlacementSound(Max(region.start, low));
    var s1 := SetUsed(s, p.fourKiloBitmap, Size2MiB).value;
    SetUsedKeepsSummary(s, p.fourKiloBitmap, Size2MiB);
    SetUsedKeepsCounts(s, p.fourKiloBitmap, Size2MiB);
    SetUsedEffect(s, p.fourKiloBitmap, Size2MiB);
    var b := p.twoMegaBitmap;
    var m := b / SIZE_4KIB;
    PageReleased(region, low, b);
    ReleasedInMember(regions, low, i, m);
    SmallOutsideLarge(p.fourKiloBitmap, b);
    assert !Used4k(s1, m);
    FreeFrameCounted(s1, m);
  }

  /** The page at an aligned address inside a usable region, at or above `low`, is released. */
  lemma PageReleased(r: MemoryRegion, low: nat, b: nat)
    requires r.kind == Usable && b % SIZE_4KIB == 0 && r.start <= b && low <= b && b + SIZE_4KIB <= r.end
    ensures ReleasedBy(r, low, b / SIZE_4KIB)
  {
    assert b == SIZE_4KIB * (b / SIZE_4KIB);
    RangeReleased(r, low, b, SIZE_4KIB, b / SIZE_4KIB);
  }

  /** A page that does not overlap a 2 MiB frame is not one of its 512 frames. */
  lemma SmallOutsideLarge(a: nat, b: nat)
    requires a % SIZE_2MIB == 0 && b % SIZE_4KIB == 0 && (a + SIZE_2MIB <= b || b + SIZE_4KIB <= a)
    ensures !Covers(a, Size2MiB, b / SIZE_4KIB)
  {
    assert b == SIZE_4KIB * (b / SIZE_4KIB);
    if Covers(a, Size2MiB, b / SIZE_4KIB) {
      LargeFrameSpan(a, b / SIZE_4KIB);
      assert false;
    }
  }

  /** A free 4 KiB frame makes both zero counts the debug assertions of `set_used_lock` check positive. */
  lemma FreeFrameCounted(s: Bitmaps, m: nat)
    requires WellFormed(s) && m < Frames4k(s) && !Used4k(s, m)
    ensures Zeros(s.fourKilo) >= 1
    ensures m / FRAMES_PER_2MIB < Frames2m(s)
    ensures !Used2m(s, m / FRAMES_PER_2MIB) ==> Zeros(s.twoMega) >= 1
  {
    var g := m / FRAMES_PER_2MIB;
    SmallFrameInRange(s, m);
    ZerosPositive(s.fourKilo, m / WORD_BITS, m % WORD_BITS);
    if !Used2m(s, g) {
      ZerosPositive(s.twoMega, g / WORD_BITS, g % WORD_BITS);
    }
  }

  /** Setting bits never turns a `u64::MAX` word into anything else, so unchanged hints stay sound. */
  lemma SetUsedKeepsOldHints(s: Bitmaps, addr: nat, size: FrameSize)
    requires WellFormed(s) && HintsSound(s) && InRange(s, addr, size)
    ensures var r := SetUsed(s, addr, size).value;
      HintsSound(r.(next4kGuess := s.next4kGuess, next2mGuess := s.next2mGuess))
  {
    var r := SetUsed(s, addr, size).value;
    forall i | 0 <= i < s.next4kGuess && i < |r.fourKilo|
      ensures r.fourKilo[i] == Full()
    {
      assert s.fourKilo[i] == Full();
    }
    forall i | 0 <= i < s.next2mGuess && i < |r.twoMega|
      ensures r.twoMega[i] == Full()
    {
      assert s.twoMega[i] == Full();
    }
  }

  /** Marking a 2 MiB frame and then a 4 KiB frame used, with the hints put back, keeps the hints sound. */
  lemma MarkTwiceKeepsHints(s: Bitmaps, a: nat, b: nat)
    requires WellFormed(s) && HintsSound(s) && InRange(s, a, Size2MiB)
    requires InRange(SetUsed(s, a, Size2MiB).value, b, Size4KiB)
    ensures var s2 := SetUsed(SetUsed(s, a, Size2MiB).value, b, Size4KiB).value;
      HintsSound(s2.(next4kGuess := s.next4kGuess, next2mGuess := s.next2mGuess))
  {
    var s1 := SetUsed(s, a, Size2MiB).value;
    var s2 := SetUsed(s1, b, Size4KiB).value;
    SetUsedKeepsOldHints(s, a, Size2MiB);
    var s1' := s1.(next4kGuess := s.next4kGuess, next2mGuess := s.next2mGuess);
    SetUsedKeepsOldHints(s1', b, Size4KiB);
    assert SetUsed(s1', b, Size4KiB).value.fourKilo == s2.fourKilo;
    assert SetUsed(s1', b, Size4KiB).value.twoMega == s2.twoMega;
  }

  /** Marking a 2 MiB frame and then a 4 KiB frame used adds exactly their frames to the used ones. */
  lemma MarkTwiceEffect(s: Bitmaps, a: nat, b: nat)
    requires WellFormed(s) && InRange(s, a, Size2MiB)
    requires InRange(SetUsed(s, a, Size2MiB).value, b, Size4KiB)
    ensures var s2 := SetUsed(SetUsed(s, a, Size2MiB).value, b, Size4KiB).value;
      forall m :: 0 <= m < Frames4k(s) ==>
        (Used4k(s2, m) <==> Used4k(s, m) || Covers(a, Size2MiB, m) || Covers(b, Size4KiB, m))
  {
    SetUsedEffect(s, a, Size2MiB);
    SetUsedEffect(SetUsed(s, a, Size2MiB).value, b, Size4KiB);
  }

  /** The re-marking at the end of `init`: the two storage frames set used, then the hints the free loop left put back. */
  function MarkedStorage(s: Bitmaps, p: Placement): Bitmaps
    requires WellFormed(s) && InRange(s, p.fourKiloBitmap, Size2MiB)
    requires InRange(SetUsed(s, p.fourKiloBitmap, Size2MiB).value, p.twoMegaBitmap, Size4KiB)
  {
    var s1 := SetUsed(s, p.fourKiloBitmap, Size2MiB).value;
    SetUsed(s1, p.twoMegaBitmap, Size4KiB).value.(next4kGuess := s.next4kGuess, next2mGuess := s.next2mGuess)
  }

  lemma MarkedStorageIs(s: Bitmaps, p: Placement, s2: Bitmaps)
    requires WellFormed(s) && InRange(s, p.fourKiloBitmap, Size2MiB)
    requires InRange(SetUsed(s, p.fourKiloBitmap, Size2MiB).value, p.twoMegaBitmap, Size4KiB)
    requires s2 == SetUsed(SetUsed(s, p.fourKiloBitmap, Size2MiB).value, p.twoMegaBitmap, Size4KiB).value
    ensures MarkedStorage(s, p) == s2.(next4kGuess := s.next4kGuess, next2mGuess := s.next2mGuess)
  {
  }

  /**
   * After the free loop, re-marking both storage frames and then putting
   * back the hints the free loop left keeps every invariant, and the used
   * frames are exactly those never released plus the storage.
   */
  lemma StorageMarked(s: Bitmaps, regions: seq<MemoryRegion>, low: nat)
    requires Valid(s) && CountsAgree(s) && HintsSound(s)
    requires ChooseRegion(regions, low).Some?
    requires ReleasesTracked(regions, low, Frames4k(s))
    requires forall m :: 0 <= m < Frames4k(s) ==> (Used4k(s, m) <==> !ReleasedIn(regions, low, m))
    ensures var p := GetBitflagFrames(Max(ChooseRegion(regions, low).value.start, low));
      && InRange(s, p.fourKiloBitmap, Size2MiB)
      && SetUsedAllowed(s, p.fourKiloBitmap, Size2MiB)
      && var s1 := SetUsed(s, p.fourKiloBitmap, Size2MiB).value;
      && InRange(s1, p.twoMegaBitmap, Size4KiB)
      && SetUsedAllowed(s1, p.twoMegaBitmap, Size4KiB)
      && var r := MarkedStorage(s, p);
      && Valid(r) && CountsAgree(r) && HintsSound(r)
      && forall m :: 0 <= m < Frames4k(r) ==> (Used4k(r, m) <==> !ReleasedIn(regions, low, m) || Storage(p, m))
  {
    var p := GetBitflagFrames(Max(ChooseRegion(regions, low).value.start, low));
    MarkLargeStorage(s, regions, low);
    MarkSmallStorage(s, regions, low);
    MarkTwiceKeepsInvariants(s, p);
    MarkTwiceEffect(s, p.fourKiloBitmap, p.twoMegaBitmap);
  }

  /** Allowed re-markings keep the summary invariant, the counters and the hints. */
  lemma MarkTwiceKeepsInvariants(s: Bitmaps, p: Placement)
    requires Valid(s) && CountsAgree(s) && HintsSound(s)
    requires InRange(s, p.fourKiloBitmap, Size2MiB) && SetUsedAllowed(s, p.fourKiloBitmap, Size2MiB)
    requires var s1 := SetUsed(s, p.fourKiloBitmap, Size2MiB).value;
      InRange(s1, p.twoMegaBitmap, Size4KiB) && SetUsedAllowed(s1, p.twoMegaBitmap, Size4KiB)
    ensures var r := MarkedStorage(s, p);
      Valid(r) && CountsAgree(r) && HintsSound(r)
  {
    var s1 := SetUsed(s, p.fourKiloBitmap, Size2MiB).value;
    SetUsedKeepsSummary(s, p.fourKiloBitmap, Size2MiB);
    SetUsedKeepsCounts(s, p.fourKiloBitmap, Size2MiB);
    SetUsedKeepsSummary(s1, p.twoMegaBitmap, Size4KiB);
    SetUsedKeepsCounts(s1, p.twoMegaBitmap, Size4KiB);
    MarkTwiceKeepsHints(s, p.fourKiloBitmap, p.twoMegaBitmap);
    var s2 := SetUsed(s1, p.twoMegaBitmap, Size4KiB).value;
    OtherHints(s2, s.next4kGuess, s.next2mGuess);
  }

  /** The summary invariant and the counters do not depend on the hints. */
  lemma OtherHints(s: Bitmaps, h4: nat, h2: nat)
    requires Valid(s) && CountsAgree(s) && h4 <= |s.fourKilo| && h2 <= |s.twoMega|
    ensures Valid(s.(next4kGuess := h4, next2mGuess := h2))
    ensures CountsAgree(s.(next4kGuess := h4, next2mGuess := h2))
  {
    var r := s.(next4kGuess := h4, next2mGuess := h2);
    forall g | 0 <= g < Frames2m(r)
      ensures Used2m(r, g) <==> !BlockZero(r.fourKilo, g)
    {
      assert Used2m(r, g) == Used2m(s, g);
    }
  }

  // ---------------------------------------------------------------- the hint jump of set_used_lock

  /** A small state: one 2 MiB frame whose words 0 and 1 each have one free frame (frames 0 and 127). */
  function HintExample(): (s: Bitmaps)
    ensures WellFormed(s)
  {
    var words := seq(FRAMES_PER_2MIB, _ => Full());
    Bitmaps(words[0 := Full()[0 := false]][1 := Full()[63 := false]], [Full()], 2, 0, 0, 0)
  }

  /**
   * As written, a direct 4 KiB `set_used_lock` on frame 127 fills word 1 and
   * moves the 4 KiB hint to 2 although frame 0 in word 0 is still free: the
   * next `allocate_frame::<Size4KiB>()` finds nothing while one frame is
   * free, and its `free_4k_frames == 0` debug assertion fails.
   */
  lemma SetUsedHintSkipsFreeFrame()
    ensures var s := HintExample();
      && Valid(s) && CountsAgree(s) && HintsSound(s)
      && SetUsedAllowed(s, 127 * SIZE_4KIB, Size4KiB)
      && var r := SetUsed(s, 127 * SIZE_4KIB, Size4KiB).value;
      && !HintsSound(r)
      && !Used4k(r, 0)
      && Allocate(r, Size4KiB).0.None?
      && FreeMemorySize(r) == SIZE_4KIB
      && !AllocateAllowed(r, Size4KiB)
  {
    var s := HintExample();
    var w0 := Full()[0 := false];
    var w1 := Full()[63 := false];
    var words := seq(FRAMES_PER_2MIB, _ => Full());
    FullAndZeroCounts();
    CountClearUpdate(Full(), 0, false);
    CountClearUpdate(Full(), 63, false);
    ZerosUniform(FRAMES_PER_2MIB, Full());
    ZerosUpdate(words, 0, w0);
    ZerosUpdate(words[0 := w0], 1, w1);
    ZerosAllFull([Full()]);
    assert Zeros(s.fourKilo) == 2;
    forall g | 0 <= g < Frames2m(s)
      ensures Used2m(s, g) && !BlockZero(s.fourKilo, g)
    {
      assert s.fourKilo[WORDS_PER_2MIB * g][1];
    }
    var r := SetUsed(s, 127 * SIZE_4KIB, Size4KiB).value;
    assert r.fourKilo[1] == Full();
    assert r.next4kGuess == 2;
    assert r.fourKilo[0] != Full() by { assert !r.fourKilo[0][0]; }
    assert FirstNotFull(r.fourKilo, 2).None?;
  }
}
