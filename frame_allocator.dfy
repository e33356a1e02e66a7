/**
 * `BitmapFrameAllocator` of kernel/src/memory/frame_allocator.rs as a class:
 * the two bitmaps are arrays changed in place, the counters and hints are
 * fields. Every method is proved against the value-level operation of
 * FrameAllocatorSpec, whose properties FrameAllocatorProperties proves.
 */
module FrameAllocator {
  import opened Wrappers
  import opened Bits
  import opened Digits
  import opened FrameAllocatorSpec
  import opened FrameAllocatorProperties
  import opened FramePlacement
  import opened FrameInit

  /** `[from..][..n].fill(v)` on a word array. */
  method FillWords(a: array<Word>, from: nat, n: nat, v: Word)
    requires from + n <= a.Length
    modifies a
    ensures a[..] == Fill(old(a[..]), from, n, v)
  {
    for t := from to from + n
      invariant forall u :: 0 <= u < a.Length ==> a[u] == if from <= u < t then v else old(a[u])
    {
      a[t] := v;
    }
  }

  /** The scan loop finds what `FirstNotFull` specifies. */
  lemma {:induction false} ScanIsFirstNotFull(ws: seq<Word>, from: nat, i: nat)
    requires from <= i <= |ws|
    requires forall j :: from <= j < i ==> ws[j] == Full()
    requires i < |ws| ==> ws[i] != Full()
    ensures FirstNotFull(ws, from) == if i < |ws| then Some(i) else None
    decreases i - from
  {
    if from < i {
      ScanIsFirstNotFull(ws, from + 1, i);
    }
  }

  /** The scan of `allocate_frame` from the hint finds the word `Candidate` takes its bit from. */
  lemma ScanCandidate(s: Bitmaps, size: FrameSize, i: nat)
    requires var ws, from := BitmapOf(s, size), HintOf(s, size);
      && from <= i <= |ws| && (forall j :: from <= j < i ==> ws[j] == Full()) && (i < |ws| ==> ws[i] != Full())
    ensures var ws := BitmapOf(s, size);
      Candidate(s, size) == if i < |ws| then Some((WORD_BITS * i + TrailingOnes(ws[i])) * SizeBytes(size)) else None
  {
    ScanIsFirstNotFull(BitmapOf(s, size), HintOf(s, size), i);
  }

  /** The scan of `allocate_frame`: the first word from `hint` on that is not `u64::MAX`, or the length. */
  method ScanWords(bitflag: array<Word>, hint: nat) returns (i: nat)
    requires hint <= bitflag.Length
    ensures hint <= i <= bitflag.Length
    ensures forall j :: hint <= j < i ==> bitflag[j] == Full()
    ensures i < bitflag.Length ==> bitflag[i] != Full()
  {
    i := hint;
    while i < bitflag.Length && bitflag[i] == Full()
      invariant hint <= i <= bitflag.Length
      invariant forall j :: hint <= j < i ==> bitflag[j] == Full()
    {
      i := i + 1;
    }
  }

  class BitmapFrameAllocator {
    var totalUsableMemory: nat
    var lowMemoryUsableSize: nat
    var next2mGuess: nat
    var next4kGuess: nat
    var free2mFrames: int
    var free4kFrames: int
    const twoMegabyteBitflag: array<Word>
    const fourKilobytesBitflag: array<Word>

    /** The allocator's state as a value. */
    ghost function Abstract(): Bitmaps
      reads this, twoMegabyteBitflag, fourKilobytesBitflag
    {
      Bitmaps(fourKilobytesBitflag[..], twoMegabyteBitflag[..], free4kFrames, free2mFrames, next4kGuess, next2mGuess)
    }

    /** The two totals `init` computes, which no other operation changes. */
    function Totals(): (nat, nat)
      reads this
    {
      (totalUsableMemory, lowMemoryUsableSize)
    }

    /** Two distinct arrays whose sizes and hints fit together. */
    ghost predicate Inv()
      reads this, twoMegabyteBitflag, fourKilobytesBitflag
    {
      twoMegabyteBitflag != fourKilobytesBitflag && WellFormed(Abstract())
    }

    /**
     * `init`: both bitmaps start full, every 4 KiB frame of a usable region at
     * or above `low` is released, and the frames holding the bitmaps are marked
     * used again. The region for the bitmaps is the one the corrected filter
     * picks, and the hints are put back to what the free loop left.
     */
    constructor Init(regions: seq<MemoryRegion>, low: nat)
      requires UsableOrdered(regions) && UsableNonEmpty(regions)
      requires ChooseRegion(regions, low).Some?
      requires ReleasesDisjoint(regions, low)
      requires ReleasesTracked(regions, low, TRACKED_FRAMES)
      ensures fresh(twoMegabyteBitflag) && fresh(fourKilobytesBitflag)
      ensures twoMegabyteBitflag.Length == TWO_MEGA_WORDS && fourKilobytesBitflag.Length == FOUR_KILO_WORDS
      ensures Inv() && Valid(Abstract()) && CountsAgree(Abstract()) && HintsSound(Abstract())
      ensures totalUsableMemory == TotalUsable(regions) && lowMemoryUsableSize == LowUsable(regions, low)
      ensures var p := GetBitflagFrames(Max(ChooseRegion(regions, low).value.start, low));
        forall m :: 0 <= m < TRACKED_FRAMES ==>
          (Used4k(Abstract(), m) <==> !ReleasedIn(regions, low, m) || Storage(p, m))
    {
      totalUsableMemory := TotalUsable(regions);
      lowMemoryUsableSize := LowUsable(regions, low);
      var region := ChooseRegion(regions, low).value;
      var placement := GetBitflagFrames(Max(region.start, low));
      fourKilobytesBitflag := new Word[FOUR_KILO_WORDS](_ => Full());
      twoMegabyteBitflag := new Word[TWO_MEGA_WORDS](_ => Full());
      next2mGuess := TWO_MEGA_WORDS;
      next4kGuess := FOUR_KILO_WORDS;
      free2mFrames := 0;
      free4kFrames := 0;
      new;
      assert Abstract() == Initial();
      InitialSound();
      StartFreed(Abstract(), regions, low);
      ReleaseRegions(regions, low);
      MarkStorage(regions, low, placement);
    }

    /**
     * `init` as a whole: `None` where no region of the map holds both bitmaps
     * (the kernel's `unwrap` panics when none passes its filter), otherwise the
     * allocator `Init` builds over the region the corrected filter picks.
     */
    static method New(regions: seq<MemoryRegion>, low: nat) returns (r: Option<BitmapFrameAllocator>)
      requires UsableOrdered(regions) && UsableNonEmpty(regions)
      requires ReleasesDisjoint(regions, low)
      requires ReleasesTracked(regions, low, TRACKED_FRAMES)
      ensures r.None? <==> forall i :: 0 <= i < |regions| ==> !Fits(regions[i], low)
      ensures r.Some? ==> fresh(r.value) && fresh(r.value.twoMegabyteBitflag) && fresh(r.value.fourKilobytesBitflag)
      ensures r.Some? ==> r.value.twoMegabyteBitflag.Length == TWO_MEGA_WORDS && r.value.fourKilobytesBitflag.Length == FOUR_KILO_WORDS
      ensures r.Some? ==> r.value.Inv() && Valid(r.value.Abstract()) && CountsAgree(r.value.Abstract()) && HintsSound(r.value.Abstract())
      ensures r.Some? ==> r.value.Totals() == (TotalUsable(regions), LowUsable(regions, low))
      ensures r.Some? ==> ChooseRegion(regions, low).Some?
      ensures r.Some? ==> (
        var p := GetBitflagFrames(Max(ChooseRegion(regions, low).value.start, low));
        forall m :: 0 <= m < TRACKED_FRAMES ==>
          (Used4k(r.value.Abstract(), m) <==> !ReleasedIn(regions, low, m) || Storage(p, m)))
    {
      if ChooseRegion(regions, low).None? {
        return None;
      }
      var a := new BitmapFrameAllocator.Init(regions, low);
      return Some(a);
    }

    /** The free loop of `init`, over every region of the map in order. */
    method ReleaseRegions(regions: seq<MemoryRegion>, low: nat)
      requires ReleasesDisjoint(regions, low) && ReleasesTracked(regions, low, Frames4k(Abstract()))
      requires Inv() && Valid(Abstract()) && CountsAgree(Abstract()) && HintsSound(Abstract())
      requires FreedExactly(Abstract(), regions, low, 0, 0)
      modifies this, twoMegabyteBitflag, fourKilobytesBitflag
      ensures Inv() && Valid(Abstract()) && CountsAgree(Abstract()) && HintsSound(Abstract())
      ensures Totals() == old(Totals())
      ensures forall m :: 0 <= m < Frames4k(Abstract()) ==> (Used4k(Abstract(), m) <==> !ReleasedIn(regions, low, m))
    {
      for i := 0 to |regions|
        invariant Inv() && Valid(Abstract()) && CountsAgree(Abstract()) && HintsSound(Abstract())
        invariant Totals() == old(Totals())
        invariant FreedExactly(Abstract(), regions, low, i, 0)
      {
        ReleaseRegion(regions, low, i);
      }
      AllRegionsDone(Abstract(), regions, low);
    }

    /** One pass of the free loop of `init`: every frame of usable region `i` at or above `low` is released. */
    method ReleaseRegion(regions: seq<MemoryRegion>, low: nat, i: nat)
      requires i < |regions| && ReleasesDisjoint(regions, low) && ReleasesTracked(regions, low, Frames4k(Abstract()))
      requires Inv() && Valid(Abstract()) && CountsAgree(Abstract()) && HintsSound(Abstract())
      requires FreedExactly(Abstract(), regions, low, i, 0)
      modifies this, twoMegabyteBitflag, fourKilobytesBitflag
      ensures Inv() && Valid(Abstract()) && CountsAgree(Abstract()) && HintsSound(Abstract())
      ensures Totals() == old(Totals())
      ensures FreedExactly(Abstract(), regions, low, i + 1, 0)
    {
      var r := regions[i];
      if r.kind == Usable {
        var f := FirstFrame(r);
        while f < EndFrame(r)
          invariant FirstFrame(r) <= f
          invariant Inv() && Valid(Abstract()) && CountsAgree(Abstract()) && HintsSound(Abstract())
          invariant Totals() == old(Totals())
          invariant FreedExactly(Abstract(), regions, low, i, f)
        {
          if f * SIZE_4KIB >= low {
            ReleasedInMember(regions, low, i, f);
            ReleaseStep(Abstract(), regions, low, i, f);
            var _ := SetUnusedLock(f * SIZE_4KIB, Size4KiB);
          } else {
            SkipStep(Abstract(), regions, low, i, f);
          }
          f := f + 1;
        }
        RegionDone(Abstract(), regions, low, i, f);
      } else {
        RegionDone(Abstract(), regions, low, i, 0);
      }
    }

    /**
     * The end of `init`: the 2 MiB frame of the 4 KiB bitmap and the 4 KiB
     * frame of the 2 MiB bitmap are marked used, and the hints are put back.
     */
    method MarkStorage(regions: seq<MemoryRegion>, low: nat, placement: Placement)
      requires ChooseRegion(regions, low).Some?
      requires placement == GetBitflagFrames(Max(ChooseRegion(regions, low).value.start, low))
      requires Inv() && Valid(Abstract()) && CountsAgree(Abstract()) && HintsSound(Abstract())
      requires ReleasesTracked(regions, low, Frames4k(Abstract()))
      requires forall m :: 0 <= m < Frames4k(Abstract()) ==> (Used4k(Abstract(), m) <==> !ReleasedIn(regions, low, m))
      modifies this, twoMegabyteBitflag, fourKilobytesBitflag
      ensures Inv() && Valid(Abstract()) && CountsAgree(Abstract()) && HintsSound(Abstract())
      ensures Totals() == old(Totals())
      ensures forall m :: 0 <= m < Frames4k(Abstract()) ==>
        (Used4k(Abstract(), m) <==> !ReleasedIn(regions, low, m) || Storage(placement, m))
    {
      ghost var s := Abstract();
      StorageMarked(s, regions, low);
      ghost var s1 := SetUsed(s, placement.fourKiloBitmap, Size2MiB).value;
      ghost var s2 := SetUsed(s1, placement.twoMegaBitmap, Size4KiB).value;
      var hint4k := next4kGuess;
      var hint2m := next2mGuess;
      var _ := SetUsedLock(placement.fourKiloBitmap, Size2MiB);
      assert Abstract() == s1;
      var _ := SetUsedLock(placement.twoMegaBitmap, Size4KiB);
      assert Abstract() == s2;
      RestoreHints(hint4k, hint2m);
      MarkedStorageIs(s, placement, s2);
    }

    /** Putting back saved hints changes the hints and nothing else. */
    method RestoreHints(hint4k: nat, hint2m: nat)
      modifies this
      ensures Abstract() == old(Abstract()).(next4kGuess := hint4k, next2mGuess := hint2m)
      ensures Totals() == old(Totals())
    {
      next4kGuess := hint4k;
      next2mGuess := hint2m;
    }

    /** `set_used_lock`: `None` and no change out of range, otherwise the spec's new state. */
    method SetUsedLock(startAddress: nat, size: FrameSize) returns (r: Option<()>)
      requires Inv() && SetUsedAllowed(Abstract(), startAddress, size)
      modifies this, twoMegabyteBitflag, fourKilobytesBitflag
      ensures Inv() && Totals() == old(Totals())
      ensures r.Some? <==> InRange(old(Abstract()), startAddress, size)
      ensures Abstract() == if r.Some? then SetUsed(old(Abstract()), startAddress, size).value else old(Abstract())
    {
      match size {
        case Size2MiB =>
          if startAddress / SIZE_2MIB / WORD_BITS >= twoMegabyteBitflag.Length {
            return None;
          }
          SetUsed2m(startAddress);
        case Size4KiB =>
          if startAddress / SIZE_4KIB / WORD_BITS >= fourKilobytesBitflag.Length {
            return None;
          }
          SetUsed4k(startAddress);
      }
      return Some(());
    }

    /** The 2 MiB branch of `set_used_lock`. */
    method SetUsed2m(startAddress: nat)
      requires Inv() && InRange(Abstract(), startAddress, Size2MiB)
      modifies this, twoMegabyteBitflag, fourKilobytesBitflag
      ensures Inv() && Totals() == old(Totals())
      ensures Abstract() == SetUsed(old(Abstract()), startAddress, Size2MiB).value
    {
      ghost var s := Abstract();
      ghost var t := SetUsed(s, startAddress, Size2MiB).value;
      var g := startAddress / SIZE_2MIB;
      LargeFrameInRange(s, g);
      var index := g / WORD_BITS;
      var fourKiloIndex := WORDS_PER_2MIB * g;
      twoMegabyteBitflag[index] := twoMegabyteBitflag[index][g % WORD_BITS := true];
      ghost var twoMega := twoMegabyteBitflag[..];
      assert twoMega == SetBit(s.twoMega, g, true);
      FillWords(fourKilobytesBitflag, fourKiloIndex, WORDS_PER_2MIB, Full());
      assert twoMegabyteBitflag[..] == twoMega;
      free2mFrames := free2mFrames - 1;
      free4kFrames := free4kFrames - FRAMES_PER_2MIB;
      if twoMegabyteBitflag[index] == Full() {
        next2mGuess := index + 1;
      }
      if fourKiloIndex <= next4kGuess < fourKiloIndex + WORDS_PER_2MIB {
        next4kGuess := fourKiloIndex + WORDS_PER_2MIB;
      }
      assert t == Abstract();
    }

    /** The 4 KiB branch of `set_used_lock`. */
    method SetUsed4k(startAddress: nat)
      requires Inv() && InRange(Abstract(), startAddress, Size4KiB)
      modifies this, twoMegabyteBitflag, fourKilobytesBitflag
      ensures Inv() && Totals() == old(Totals())
      ensures Abstract() == SetUsed(old(Abstract()), startAddress, Size4KiB).value
    {
      ghost var s := Abstract();
      ghost var t := SetUsed(s, startAddress, Size4KiB).value;
      var f := startAddress / SIZE_4KIB;
      var index := f / WORD_BITS;
      fourKilobytesBitflag[index] := fourKilobytesBitflag[index][f % WORD_BITS := true];
      assert fourKilobytesBitflag[..] == SetBit(s.fourKilo, f, true);
      var g := f / FRAMES_PER_2MIB;
      FrameInBlock(f);
      SmallFrameInRange(s, f);
      var twoMegaIndex := g / WORD_BITS;
      var value := twoMegabyteBitflag[twoMegaIndex];
      var newValue := value[g % WORD_BITS := true];
      assert value != newValue <==> !Bit(s.twoMega, g);
      if value != newValue {
        free2mFrames := free2mFrames - 1;
      }
      twoMegabyteBitflag[twoMegaIndex] := newValue;
      assert twoMegabyteBitflag[..] == SetBit(s.twoMega, g, true);
      free4kFrames := free4kFrames - 1;
      if fourKilobytesBitflag[index] == Full() {
        next4kGuess := index + 1;
      }
      assert Abstract() == t;
    }

    /** `set_unused_lock`: `None` and no change out of range, otherwise the spec's new state. */
    method SetUnusedLock(startAddress: nat, size: FrameSize) returns (r: Option<()>)
      requires Inv() && SetUnusedAllowed(Abstract(), startAddress, size)
      modifies this, twoMegabyteBitflag, fourKilobytesBitflag
      ensures Inv() && Totals() == old(Totals())
      ensures r.Some? <==> InRange(old(Abstract()), startAddress, size)
      ensures Abstract() == if r.Some? then SetUnused(old(Abstract()), startAddress, size).value else old(Abstract())
    {
      match size {
        case Size2MiB =>
          if startAddress / SIZE_2MIB / WORD_BITS >= twoMegabyteBitflag.Length {
            return None;
          }
          SetUnused2m(startAddress);
        case Size4KiB =>
          if startAddress / SIZE_4KIB / WORD_BITS >= fourKilobytesBitflag.Length {
            return None;
          }
          SetUnused4k(startAddress);
      }
      return Some(());
    }

    /** The 2 MiB branch of `set_unused_lock`. */
    method SetUnused2m(startAddress: nat)
      requires Inv() && InRange(Abstract(), startAddress, Size2MiB)
      modifies this, twoMegabyteBitflag, fourKilobytesBitflag
      ensures Inv() && Totals() == old(Totals())
      ensures Abstract() == SetUnused(old(Abstract()), startAddress, Size2MiB).value
    {
      ghost var s := Abstract();
      var g := startAddress / SIZE_2MIB;
      LargeFrameInRange(s, g);
      var index := g / WORD_BITS;
      twoMegabyteBitflag[index] := twoMegabyteBitflag[index][g % WORD_BITS := false];
      assert twoMegabyteBitflag[..] == SetBit(s.twoMega, g, false);
      var fourKiloIndex := WORDS_PER_2MIB * g;
      FillWords(fourKilobytesBitflag, fourKiloIndex, WORDS_PER_2MIB, Zero());
      next2mGuess := Min(next2mGuess, index);
      next4kGuess := Min(next4kGuess, fourKiloIndex);
      free2mFrames := free2mFrames + 1;
      free4kFrames := free4kFrames + FRAMES_PER_2MIB;
    }

    /** The 4 KiB branch of `set_unused_lock`. */
    method SetUnused4k(startAddress: nat)
      requires Inv() && InRange(Abstract(), startAddress, Size4KiB)
      modifies this, twoMegabyteBitflag, fourKilobytesBitflag
      ensures Inv() && Totals() == old(Totals())
      ensures Abstract() == SetUnused(old(Abstract()), startAddress, Size4KiB).value
    {
      ghost var s := Abstract();
      ghost var t := SetUnused(s, startAddress, Size4KiB).value;
      var f := startAddress / SIZE_4KIB;
      var index := f / WORD_BITS;
      fourKilobytesBitflag[index] := fourKilobytesBitflag[index][f % WORD_BITS := false];
      assert fourKilobytesBitflag[..] == SetBit(s.fourKilo, f, false);
      var g := f / FRAMES_PER_2MIB;
      FrameInBlock(f);
      SmallFrameInRange(s, f);
      var twoMegaIndex := g / WORD_BITS;
      if BlockZero(fourKilobytesBitflag[..], g) {
        var value := twoMegabyteBitflag[twoMegaIndex];
        var newValue := value[g % WORD_BITS := false];
        assert value != newValue <==> Bit(s.twoMega, g);
        twoMegabyteBitflag[twoMegaIndex] := newValue;
        assert twoMegabyteBitflag[..] == SetBit(s.twoMega, g, false);
        next2mGuess := Min(next2mGuess, twoMegaIndex);
        if value != newValue {
          free2mFrames := free2mFrames + 1;
        }
      }
      next4kGuess := Min(next4kGuess, index);
      free4kFrames := free4kFrames + 1;
      assert Abstract() == t;
    }

    /** `deallocate_frame`: `set_unused_lock` with its result dropped. */
    method DeallocateFrame(startAddress: nat, size: FrameSize)
      requires Inv() && SetUnusedAllowed(Abstract(), startAddress, size)
      modifies this, twoMegabyteBitflag, fourKilobytesBitflag
      ensures Inv() && Totals() == old(Totals())
      ensures Abstract() == Deallocate(old(Abstract()), startAddress, size)
    {
      var _ := SetUnusedLock(startAddress, size);
    }

    /** `allocate_frame::<Size4KiB>()` and `allocate_frame::<Size2MiB>()`: first fit from the hint. */
    method AllocateFrame(size: FrameSize) returns (r: Option<nat>)
      requires Inv() && AllocateAllowed(Abstract(), size)
      modifies this, twoMegabyteBitflag, fourKilobytesBitflag
      ensures Inv() && Totals() == old(Totals())
      ensures (r, Abstract()) == Allocate(old(Abstract()), size)
    {
      ghost var s := Abstract();
      var bitflag := if size == Size4KiB then fourKilobytesBitflag else twoMegabyteBitflag;
      var hint := if size == Size4KiB then next4kGuess else next2mGuess;
      assert bitflag[..] == BitmapOf(s, size) && hint == HintOf(s, size);
      var i := ScanWords(bitflag, hint);
      ScanCandidate(s, size, i);
      if i == bitflag.Length {
        assert Allocate(s, size) == (None, s);
        return None;
      }
      var frame := WORD_BITS * i + TrailingOnes(bitflag[i]);
      var frameAddress := frame * SizeBytes(size);
      assert Candidate(s, size) == Some(frameAddress);
      CandidateInRange(s, size);
      assert Allocate(s, size) == (Some(frameAddress), SetUsed(s, frameAddress, size).value);
      var _ := SetUsedLock(frameAddress, size);
      return Some(frameAddress);
    }

    /** `get_total_usable_memory`. */
    function GetTotalUsableMemory(): nat
      reads this
    {
      totalUsableMemory
    }

    /** `get_free_dma_memory`: the usable memory below the low-memory limit. */
    function GetFreeDmaMemory(): nat
      reads this
    {
      lowMemoryUsableSize
    }

    /** `get_free_4k_frames`: the counter, which the debug build checks against the zero bits. */
    function GetFree4kFrames(): (n: int)
      requires free4kFrames == Zeros(fourKilobytesBitflag[..])
      reads this, fourKilobytesBitflag
      ensures n == Zeros(fourKilobytesBitflag[..])
    {
      free4kFrames
    }

    /** `get_free_2m_frames`: the counter, which the debug build checks against the zero bits. */
    function GetFree2mFrames(): (n: int)
      requires free2mFrames == Zeros(twoMegabyteBitflag[..])
      reads this, twoMegabyteBitflag
      ensures n == Zeros(twoMegabyteBitflag[..])
    {
      free2mFrames
    }

    /** `get_free_memory_size`: free 4 KiB frames times 4096. */
    function GetFreeMemorySize(): (n: int)
      requires free4kFrames == Zeros(fourKilobytesBitflag[..])
      reads this, fourKilobytesBitflag
      ensures n == SIZE_4KIB * Zeros(fourKilobytesBitflag[..])
    {
      GetFree4kFrames() * SIZE_4KIB
    }
  }
}
