/**
 * The pure arithmetic of `BitmapFrameAllocator::init` in
 * kernel/src/memory/frame_allocator.rs: the two sums over the boot memory
 * map, the choice of the region that receives the bitmaps, where
 * `get_bitflag_frames` puts them, and which 4 KiB frames the free loop
 * releases. `LOW_MEMORY_LIMIT` is a parameter `low` throughout.
 */
module FramePlacement {
  import opened Wrappers
  import opened Digits
  import opened FrameAllocatorSpec

  /** The kinds of `bootloader_api::info::MemoryRegionKind`. */
  datatype RegionKind = Usable | Bootloader | UnknownUefi(uefi: nat) | UnknownBios(bios: nat)

  /** A boot memory-map entry, the half-open byte range [start, end). */
  datatype MemoryRegion = MemoryRegion(start: nat, end: nat, kind: RegionKind)

  // ---------------------------------------------------------------- the two sums

  /** Usable regions never end before they start (`region.end - region.start` would underflow). */
  predicate UsableOrdered(regions: seq<MemoryRegion>) {
    forall i :: 0 <= i < |regions| && regions[i].kind == Usable ==> regions[i].start <= regions[i].end
  }

  /** `total_usable_memory`: the summed size of the usable regions. */
  function TotalUsable(regions: seq<MemoryRegion>): nat
    requires UsableOrdered(regions)
  {
    if |regions| == 0 then 0
    else
      var r := regions[|regions| - 1];
      TotalUsable(regions[..|regions| - 1]) + (if r.kind == Usable then r.end - r.start else 0)
  }

  /** The part of a region below `low`, as `low_memory_usable_size` computes it. */
  function LowPart(r: MemoryRegion, low: nat): nat {
    var end := Min(r.end, low);
    var start := Min(r.start, end);
    end - start
  }

  /** The part of a region at or above `low`, as the region filter of `init` computes it. */
  function HighPart(r: MemoryRegion, low: nat): nat {
    var start := Max(r.start, low);
    var end := Max(r.end, start);
    end - start
  }

  /** `low_memory_usable_size`: the summed part of the usable regions below `low`. */
  function LowUsable(regions: seq<MemoryRegion>, low: nat): nat {
    if |regions| == 0 then 0
    else
      var r := regions[|regions| - 1];
      LowUsable(regions[..|regions| - 1], low) + (if r.kind == Usable then LowPart(r, low) else 0)
  }

  /** The summed part of the usable regions at or above `low`. */
  function HighUsable(regions: seq<MemoryRegion>, low: nat): nat {
    if |regions| == 0 then 0
    else
      var r := regions[|regions| - 1];
      HighUsable(regions[..|regions| - 1], low) + (if r.kind == Usable then HighPart(r, low) else 0)
  }

  /** The part below `low` and the part above it make up the whole region. */
  lemma SplitAtLow(r: MemoryRegion, low: nat)
    requires r.start <= r.end
    ensures LowPart(r, low) + HighPart(r, low) == r.end - r.start
    ensures r.end <= low ==> LowPart(r, low) == r.end - r.start
    ensures low <= r.start ==> LowPart(r, low) == 0
  {
  }

  /** The low-memory sum and the high-memory sum add up to the total. */
  lemma {:induction false} UsableSplit(regions: seq<MemoryRegion>, low: nat)
    requires UsableOrdered(regions)
    ensures LowUsable(regions, low) + HighUsable(regions, low) == TotalUsable(regions)
    decreases |regions|
  {
    if |regions| > 0 {
      var r := regions[|regions| - 1];
      UsableSplit(regions[..|regions| - 1], low);
      if r.kind == Usable {
        SplitAtLow(r, low);
      }
    }
  }

  // ---------------------------------------------------------------- get_bitflag_frames

  /** `align_up(Size2MiB::SIZE)`: the least multiple of 2 MiB at or above `a`. */
  function AlignUp2MiB(a: nat): (r: nat)
    ensures r % SIZE_2MIB == 0 && a <= r < a + SIZE_2MIB
  {
    (a + SIZE_2MIB - 1) / SIZE_2MIB * SIZE_2MIB
  }

  /** Where the bitmaps go: the 2 MiB frame of the 4 KiB bitmap and the 4 KiB frame of the 2 MiB bitmap. */
  datatype Placement = Placement(fourKiloBitmap: nat, twoMegaBitmap: nat)

  /** `get_bitflag_frames`: the three placement cases. */
  function GetBitflagFrames(start: nat): (p: Placement)
    requires start % SIZE_4KIB == 0
    ensures p.fourKiloBitmap % SIZE_2MIB == 0 && p.twoMegaBitmap % SIZE_4KIB == 0
    ensures start <= p.fourKiloBitmap && start <= p.twoMegaBitmap
  {
    if start % SIZE_2MIB == 0 then
      Placement(start, start + SIZE_2MIB)
    else if (start + SIZE_4KIB) % SIZE_2MIB == 0 then
      Placement(start + SIZE_4KIB, start)
    else
      Placement(AlignUp2MiB(start), start)
  }

  /** The first byte after both bitmaps. */
  function PlacementEnd(p: Placement): nat {
    Max(p.fourKiloBitmap + SIZE_2MIB, p.twoMegaBitmap + SIZE_4KIB)
  }

  /** In the third case the 2 MiB frame starts at least two pages above `start`. */
  lemma UnalignedGap(start: nat)
    requires start % SIZE_4KIB == 0 && start % SIZE_2MIB != 0 && (start + SIZE_4KIB) % SIZE_2MIB != 0
    ensures start + 2 * SIZE_4KIB <= AlignUp2MiB(start)
  {
    var a := AlignUp2MiB(start);
    var j := a / SIZE_2MIB;
    assert a == SIZE_2MIB * j;
    var k := start / SIZE_4KIB;
    assert start == SIZE_4KIB * k;
    var d := a - start;
    assert d == SIZE_4KIB * (FRAMES_PER_2MIB * j - k);
    assert d != 0 && d != SIZE_4KIB;
  }

  /**
   * Both frames are aligned to their size, lie at or above `start` and do not
   * overlap; they fit in the 2 MiB + 4 KiB after `start` exactly when `start`
   * or `start + 4 KiB` is 2 MiB-aligned, and otherwise end within 4 MiB.
   */
  lemma PlacementSound(start: nat)
    requires start % SIZE_4KIB == 0
    ensures var p := GetBitflagFrames(start);
      && p.fourKiloBitmap % SIZE_2MIB == 0 && p.twoMegaBitmap % SIZE_4KIB == 0
      && start <= p.fourKiloBitmap && start <= p.twoMegaBitmap
      && (p.fourKiloBitmap + SIZE_2MIB <= p.twoMegaBitmap || p.twoMegaBitmap + SIZE_4KIB <= p.fourKiloBitmap)
      && (PlacementEnd(p) <= start + SIZE_2MIB + SIZE_4KIB
          <==> start % SIZE_2MIB == 0 || (start + SIZE_4KIB) % SIZE_2MIB == 0)
      && PlacementEnd(p) < start + 2 * SIZE_2MIB
  {
    var p := GetBitflagFrames(start);
    if start % SIZE_2MIB == 0 {
      AlignedNextPage(start);
      assert p == Placement(start, start + SIZE_2MIB);
    } else if (start + SIZE_4KIB) % SIZE_2MIB == 0 {
      assert p == Placement(start + SIZE_4KIB, start);
    } else {
      UnalignedGap(start);
      assert p == Placement(AlignUp2MiB(start), start);
    }
  }

  /** A 2 MiB-aligned address is page-aligned, and so is the address 2 MiB above it; the next page is not 2 MiB-aligned. */
  lemma AlignedNextPage(start: nat)
    requires start % SIZE_2MIB == 0
    ensures (start + SIZE_2MIB) % SIZE_4KIB == 0 && (start + SIZE_4KIB) % SIZE_2MIB != 0
  {
    var j := start / SIZE_2MIB;
    assert start + SIZE_2MIB == SIZE_4KIB * (FRAMES_PER_2MIB * j + FRAMES_PER_2MIB);
    assert start + SIZE_4KIB == SIZE_2MIB * j + SIZE_4KIB;
  }

  // ---------------------------------------------------------------- choosing the region

  /** The region filter of `init`: usable, with at least 2 MiB + 4 KiB at or above `low`. */
  predicate FitsAsWritten(r: MemoryRegion, low: nat) {
    r.kind == Usable && HighPart(r, low) >= SIZE_2MIB + SIZE_4KIB
  }

  /** The region `init` picks, as written: the first that passes the size filter. */
  function ChooseRegionAsWritten(regions: seq<MemoryRegion>, low: nat): (r: Option<MemoryRegion>)
    ensures r.Some? ==> r.value in regions && FitsAsWritten(r.value, low)
    ensures r.None? <==> forall i :: 0 <= i < |regions| ==> !FitsAsWritten(regions[i], low)
  {
    if |regions| == 0 then None
    else if FitsAsWritten(regions[0], low) then Some(regions[0])
    else ChooseRegionAsWritten(regions[1..], low)
  }

  /** The region passes the size filter, yet the placement runs past its end. */
  lemma RegionOverrunAsWritten()
    ensures var low := 0x100_0000;
      var region := MemoryRegion(0x100_2000, 0x120_3000, Usable);
      && ChooseRegionAsWritten([region], low) == Some(region)
      && PlacementEnd(GetBitflagFrames(Max(region.start, low))) > region.end
  {
    var p := GetBitflagFrames(0x100_2000);
    assert p == Placement(0x120_0000, 0x100_2000);
  }

  /** The intended filter: usable, the start at or above `low` is page-aligned, and both bitmaps fit before the end. */
  predicate Fits(r: MemoryRegion, low: nat) {
    var start := Max(r.start, low);
    && r.kind == Usable
    && start % SIZE_4KIB == 0
    && PlacementEnd(GetBitflagFrames(start)) <= r.end
  }

  /** The region the model's `init` uses: the first whose placement fits. */
  function ChooseRegion(regions: seq<MemoryRegion>, low: nat): (r: Option<MemoryRegion>)
    ensures r.Some? ==> r.value in regions && Fits(r.value, low)
    ensures r.None? <==> forall i :: 0 <= i < |regions| ==> !Fits(regions[i], low)
  {
    if |regions| == 0 then None
    else if Fits(regions[0], low) then Some(regions[0])
    else ChooseRegion(regions[1..], low)
  }

  /** With the corrected filter both bitmaps lie inside the chosen region, at or above `low`. */
  lemma ChosenRegionHoldsBitmaps(regions: seq<MemoryRegion>, low: nat)
    requires ChooseRegion(regions, low).Some?
    ensures var r := ChooseRegion(regions, low).value;
      var p := GetBitflagFrames(Max(r.start, low));
      && low <= p.fourKiloBitmap && low <= p.twoMegaBitmap
      && r.start <= p.fourKiloBitmap && p.fourKiloBitmap + SIZE_2MIB <= r.end
      && r.start <= p.twoMegaBitmap && p.twoMegaBitmap + SIZE_4KIB <= r.end
  {
    var r := ChooseRegion(regions, low).value;
    PlacementSound(Max(r.start, low));
  }

  /** Every region the corrected filter accepts also passes the filter as written. */
  lemma FitsImpliesFitsAsWritten(r: MemoryRegion, low: nat)
    requires Fits(r, low)
    ensures FitsAsWritten(r, low)
  {
    PlacementSound(Max(r.start, low));
  }

  // ---------------------------------------------------------------- the frames the free loop releases

  /** First 4 KiB frame of a region: the frame at its start aligned up to 4 KiB. */
  function FirstFrame(r: MemoryRegion): nat {
    (r.start + SIZE_4KIB - 1) / SIZE_4KIB
  }

  /** One past the last 4 KiB frame: the frame holding byte `end - 1`, plus one. */
  function EndFrame(r: MemoryRegion): nat {
    if r.end == 0 then 0 else (r.end - 1) / SIZE_4KIB + 1
  }

  /** Usable regions are non-empty (the source computes `region.end - 1`). */
  predicate UsableNonEmpty(regions: seq<MemoryRegion>) {
    forall i :: 0 <= i < |regions| && regions[i].kind == Usable ==> regions[i].end >= 1
  }

  /** Frame `m` is released by the free loop for region `r`: inside the region's frame range and at or above `low`. */
  predicate ReleasedBy(r: MemoryRegion, low: nat, m: nat) {
    r.kind == Usable && FirstFrame(r) <= m < EndFrame(r) && m * SIZE_4KIB >= low
  }

  /** Frame `m` is released for some region of `regions`. */
  predicate ReleasedIn(regions: seq<MemoryRegion>, low: nat, m: nat) {
    |regions| > 0
    && (ReleasedIn(regions[..|regions| - 1], low, m) || ReleasedBy(regions[|regions| - 1], low, m))
  }

  /** No frame is released twice (the source debug-asserts "already set as unused"). */
  ghost predicate ReleasesDisjoint(regions: seq<MemoryRegion>, low: nat) {
    forall i, m :: 0 <= i < |regions| && ReleasedBy(regions[i], low, m) ==> !ReleasedIn(regions[..i], low, m)
  }

  /** Every frame of a page-aligned byte range inside a usable region at or above `low` is released. */
  lemma RangeReleased(r: MemoryRegion, low: nat, a: nat, n: nat, m: nat)
    requires r.kind == Usable
    requires a % SIZE_4KIB == 0 && r.start <= a && low <= a && a + n <= r.end
    requires a / SIZE_4KIB <= m && m * SIZE_4KIB < a + n
    ensures ReleasedBy(r, low, m)
  {
    assert a == SIZE_4KIB * (a / SIZE_4KIB);
    assert m * SIZE_4KIB <= r.end - 1;
  }

  /** A frame released for a region of the map is released for the whole map. */
  lemma {:induction false} ReleasedInMember(regions: seq<MemoryRegion>, low: nat, i: nat, m: nat)
    requires i < |regions| && ReleasedBy(regions[i], low, m)
    ensures ReleasedIn(regions, low, m)
    decreases |regions|
  {
    if i < |regions| - 1 {
      assert regions[..|regions| - 1][i] == regions[i];
      ReleasedInMember(regions[..|regions| - 1], low, i, m);
    }
  }
}
