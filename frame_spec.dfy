/**
 * The bitmap frame allocator as a value: the two bitmaps, the two free
 * counters and the two search hints, and what each operation of
 * kernel/src/memory/frame_allocator.rs does to them.
 *
 * `fourKilo` has one bit per 4 KiB frame and `twoMega` one bit per 2 MiB
 * frame; a 2 MiB bit is a summary: it is clear exactly when the eight 4 KiB
 * words below it are all zero. The sizes are parameters: the source uses 512
 * summary words and 262 144 small words, and the model only needs
 * |fourKilo| == 512 * |twoMega|.
 */
module FrameAllocatorSpec {
  import opened Wrappers
  import opened Bits
  import opened Digits

  const SIZE_4KIB: nat := 4096
  const SIZE_2MIB: nat := 2097152
  /** 4 KiB frames per 2 MiB frame. */
  const FRAMES_PER_2MIB: nat := 512
  /** 4 KiB words that one 2 MiB bit summarises (512 frames / 64 bits). */
  const WORDS_PER_2MIB: nat := 8

  /** The two frame sizes the allocator supports; 1 GiB frames are `todo!()` in the source. */
  datatype FrameSize = Size4KiB | Size2MiB

  function SizeBytes(size: FrameSize): nat {
    match size
    case Size4KiB => SIZE_4KIB
    case Size2MiB => SIZE_2MIB
  }

  datatype Bitmaps = Bitmaps(
    fourKilo: seq<Word>,
    twoMega: seq<Word>,
    free4k: int,
    free2m: int,
    next4kGuess: nat,
    next2mGuess: nat)

  // ---------------------------------------------------------------- frame arithmetic

  /** Number of 4 KiB frames the bitmaps track. */
  function Frames4k(s: Bitmaps): nat {
    WORD_BITS * |s.fourKilo|
  }

  /** Number of 2 MiB frames the bitmaps track. */
  function Frames2m(s: Bitmaps): nat {
    WORD_BITS * |s.twoMega|
  }

  /** The 4 KiB frame `f` lies in 2 MiB frame `f / 512`, whose words are 8 (f / 512) .. 8 (f / 512) + 7. */
  lemma FrameInBlock(f: nat)
    ensures f / WORD_BITS / WORDS_PER_2MIB == f / FRAMES_PER_2MIB
    ensures WORDS_PER_2MIB * (f / FRAMES_PER_2MIB) <= f / WORD_BITS < WORDS_PER_2MIB * (f / FRAMES_PER_2MIB) + WORDS_PER_2MIB
  {
    var q := f / FRAMES_PER_2MIB;
    var r := f % FRAMES_PER_2MIB;
    assert f == FRAMES_PER_2MIB * q + r;
    assert f / WORD_BITS == WORDS_PER_2MIB * q + r / WORD_BITS;
  }

  /** A 4 KiB frame whose word is in range lies in a tracked 2 MiB frame whose eight words are in range. */
  lemma SmallFrameInRange(s: Bitmaps, f: nat)
    requires WellFormed(s) && f / WORD_BITS < |s.fourKilo|
    ensures f < Frames4k(s)
    ensures f / FRAMES_PER_2MIB < Frames2m(s)
    ensures WORDS_PER_2MIB * (f / FRAMES_PER_2MIB) + WORDS_PER_2MIB <= |s.fourKilo|
  {
    FrameInBlock(f);
    assert f == WORD_BITS * (f / WORD_BITS) + f % WORD_BITS;
  }

  /** A 2 MiB frame whose word is in range is tracked, and so are its eight 4 KiB words. */
  lemma LargeFrameInRange(s: Bitmaps, g: nat)
    requires WellFormed(s) && g / WORD_BITS < |s.twoMega|
    ensures g < Frames2m(s)
    ensures WORDS_PER_2MIB * g + WORDS_PER_2MIB <= |s.fourKilo|
  {
    assert g == WORD_BITS * (g / WORD_BITS) + g % WORD_BITS;
  }

  // ---------------------------------------------------------------- invariants

  ghost predicate WellFormed(s: Bitmaps) {
    && |s.fourKilo| == FRAMES_PER_2MIB * |s.twoMega|
    && s.next4kGuess <= |s.fourKilo|
    && s.next2mGuess <= |s.twoMega|
  }

  /** 4 KiB frame `f` is marked used. */
  predicate Used4k(s: Bitmaps, f: nat)
    requires f < Frames4k(s)
  {
    Bit(s.fourKilo, f)
  }

  /** The summary bit of 2 MiB frame `g` is set. */
  predicate Used2m(s: Bitmaps, g: nat)
    requires g < Frames2m(s)
  {
    Bit(s.twoMega, g)
  }

  /** The `.iter().all(|flags| *flags == 0)` test over the eight 4 KiB words of 2 MiB frame `g`. */
  predicate BlockZero(ws: seq<Word>, g: nat)
    requires WORDS_PER_2MIB * g + WORDS_PER_2MIB <= |ws|
  {
    forall t :: WORDS_PER_2MIB * g <= t < WORDS_PER_2MIB * g + WORDS_PER_2MIB ==> ws[t] == Zero()
  }

  /** The eight 4 KiB words of 2 MiB frame `g` are all `u64::MAX`. */
  ghost predicate BlockFull(ws: seq<Word>, g: nat)
    requires WORDS_PER_2MIB * g + WORDS_PER_2MIB <= |ws|
  {
    forall t :: WORDS_PER_2MIB * g <= t < WORDS_PER_2MIB * g + WORDS_PER_2MIB ==> ws[t] == Full()
  }

  /** The cross-level invariant: a summary bit is clear iff its eight 4 KiB words are zero. */
  ghost predicate Summary(s: Bitmaps)
    requires WellFormed(s)
  {
    forall g :: 0 <= g < Frames2m(s) ==> (Used2m(s, g) <==> !BlockZero(s.fourKilo, g))
  }

  ghost predicate Valid(s: Bitmaps) {
    WellFormed(s) && Summary(s)
  }

  /** The counters equal the zero-bit counts of the bitmaps (the debug re-check of the getters). */
  ghost predicate CountsAgree(s: Bitmaps) {
    s.free4k == Zeros(s.fourKilo) && s.free2m == Zeros(s.twoMega)
  }

  /** The hints are lower bounds: every word below a hint is `u64::MAX`. */
  ghost predicate HintsSound(s: Bitmaps) {
    && (forall i :: 0 <= i < s.next4kGuess && i < |s.fourKilo| ==> s.fourKilo[i] == Full())
    && (forall i :: 0 <= i < s.next2mGuess && i < |s.twoMega| ==> s.twoMega[i] == Full())
  }

  // ---------------------------------------------------------------- set_used_lock / set_unused_lock

  /** The frame number of an address for the given frame size (`addr >> 12` or `addr >> 21`). */
  function FrameOf(addr: nat, size: FrameSize): nat {
    addr / SizeBytes(size)
  }

  /** The address lies inside the tracked range (the source returns `None` otherwise). */
  predicate InRange(s: Bitmaps, addr: nat, size: FrameSize) {
    match size
    case Size4KiB => FrameOf(addr, size) / WORD_BITS < |s.fourKilo|
    case Size2MiB => FrameOf(addr, size) / WORD_BITS < |s.twoMega|
  }

  /** The debug assertions of `set_used_lock`: the frame is not already used and the counters can drop. */
  ghost predicate SetUsedAllowed(s: Bitmaps, addr: nat, size: FrameSize)
    requires WellFormed(s)
  {
    InRange(s, addr, size) ==>
      match size
      case Size2MiB =>
        !Used2m(s, addr / SIZE_2MIB) && s.free2m >= 1 && s.free4k >= FRAMES_PER_2MIB
      case Size4KiB =>
        && !Used4k(s, addr / SIZE_4KIB)
        && (!Used2m(s, addr / SIZE_4KIB / FRAMES_PER_2MIB) ==> s.free2m >= 1)
        && s.free4k >= 1
  }

  /** The debug assertion of `set_unused_lock`: the frame is not already free. */
  ghost predicate SetUnusedAllowed(s: Bitmaps, addr: nat, size: FrameSize)
    requires WellFormed(s)
  {
    InRange(s, addr, size) ==>
      match size
      case Size2MiB => Used2m(s, addr / SIZE_2MIB)
      case Size4KiB => Used4k(s, addr / SIZE_4KIB)
  }

  /** `set_used_lock`: `None` when out of range, otherwise the new state. */
  function SetUsed(s: Bitmaps, addr: nat, size: FrameSize): (r: Option<Bitmaps>)
    requires WellFormed(s)
    ensures r.Some? <==> InRange(s, addr, size)
    ensures r.Some? ==> WellFormed(r.value)
    ensures r.Some? ==> |r.value.fourKilo| == |s.fourKilo| && |r.value.twoMega| == |s.twoMega|
  {
    match size
    case Size2MiB =>
      var g := addr / SIZE_2MIB;
      if g / WORD_BITS >= |s.twoMega| then None
      else
        LargeFrameInRange(s, g);
        var twoMega := SetBit(s.twoMega, g, true);
        var first := WORDS_PER_2MIB * g;
        Some(Bitmaps(
          fourKilo := Fill(s.fourKilo, first, WORDS_PER_2MIB, Full()),
          twoMega := twoMega,
          free4k := s.free4k - FRAMES_PER_2MIB,
          free2m := s.free2m - 1,
          next4kGuess := if first <= s.next4kGuess < first + WORDS_PER_2MIB
                         then first + WORDS_PER_2MIB else s.next4kGuess,
          next2mGuess := if twoMega[g / WORD_BITS] == Full() then g / WORD_BITS + 1 else s.next2mGuess))
    case Size4KiB =>
      var f := addr / SIZE_4KIB;
      if f / WORD_BITS >= |s.fourKilo| then None
      else
        SmallFrameInRange(s, f);
        var fourKilo := SetBit(s.fourKilo, f, true);
        var g := f / FRAMES_PER_2MIB;
        Some(s.(
          fourKilo := fourKilo,
          twoMega := SetBit(s.twoMega, g, true),
          free2m := if Bit(s.twoMega, g) then s.free2m else s.free2m - 1,
          free4k := s.free4k - 1,
          next4kGuess := if fourKilo[f / WORD_BITS] == Full() then f / WORD_BITS + 1 else s.next4kGuess))
  }

  /** `set_unused_lock`: `None` when out of range, otherwise the new state. */
  function SetUnused(s: Bitmaps, addr: nat, size: FrameSize): (r: Option<Bitmaps>)
    requires WellFormed(s)
    ensures r.Some? <==> InRange(s, addr, size)
    ensures r.Some? ==> WellFormed(r.value)
    ensures r.Some? ==> |r.value.fourKilo| == |s.fourKilo| && |r.value.twoMega| == |s.twoMega|
  {
    match size
    case Size2MiB =>
      var g := addr / SIZE_2MIB;
      if g / WORD_BITS >= |s.twoMega| then None
      else
        LargeFrameInRange(s, g);
        var first := WORDS_PER_2MIB * g;
        Some(Bitmaps(
          fourKilo := Fill(s.fourKilo, first, WORDS_PER_2MIB, Zero()),
          twoMega := SetBit(s.twoMega, g, false),
          free4k := s.free4k + FRAMES_PER_2MIB,
          free2m := s.free2m + 1,
          next4kGuess := Min(s.next4kGuess, first),
          next2mGuess := Min(s.next2mGuess, g / WORD_BITS)))
    case Size4KiB =>
      var f := addr / SIZE_4KIB;
      if f / WORD_BITS >= |s.fourKilo| then None
      else
        SmallFrameInRange(s, f);
        var fourKilo := SetBit(s.fourKilo, f, false);
        var g := f / FRAMES_PER_2MIB;
        var t := s.(fourKilo := fourKilo, free4k := s.free4k + 1,
                    next4kGuess := Min(s.next4kGuess, f / WORD_BITS));
        if BlockZero(fourKilo, g) then
          Some(t.(
            twoMega := SetBit(s.twoMega, g, false),
            free2m := if Bit(s.twoMega, g) then s.free2m + 1 else s.free2m,
            next2mGuess := Min(s.next2mGuess, g / WORD_BITS)))
        else
          Some(t)
  }

  // ---------------------------------------------------------------- allocate_frame / deallocate_frame

  /** The scan `.iter().enumerate().skip(from).find(|f| *f != u64::MAX)`. */
  function FirstNotFull(ws: seq<Word>, from: nat): (r: Option<nat>)
    ensures r.Some? ==> from <= r.value < |ws| && ws[r.value] != Full()
    ensures forall j :: from <= j < |ws| && (r.None? || j < r.value) ==> ws[j] == Full()
    decreases |ws| - from
  {
    if from >= |ws| then None
    else if ws[from] != Full() then Some(from)
    else FirstNotFull(ws, from + 1)
  }

  /** The lowest clear bit of the first word, from `from` on, that is not `u64::MAX`. */
  function FirstClearBit(ws: seq<Word>, from: nat): Option<nat> {
    match FirstNotFull(ws, from)
    case None => None
    case Some(i) => Some(WORD_BITS * i + TrailingOnes(ws[i]))
  }

  /** The address `allocate_frame::<S>()` picks, if any: the start of a frame of that size. */
  function Candidate(s: Bitmaps, size: FrameSize): (a: Option<nat>)
    ensures a.Some? ==> a.value % SizeBytes(size) == 0
  {
    var found := match size
      case Size4KiB => FirstClearBit(s.fourKilo, s.next4kGuess)
      case Size2MiB => FirstClearBit(s.twoMega, s.next2mGuess);
    match found
    case None => None
    case Some(n) =>
      MultipleAligned(n, size);
      Some(n * SizeBytes(size))
  }

  lemma MultipleAligned(n: nat, size: FrameSize)
    ensures (n * SizeBytes(size)) % SizeBytes(size) == 0
  {
    match size
    case Size4KiB => assert n * SIZE_4KIB == SIZE_4KIB * n + 0;
    case Size2MiB => assert n * SIZE_2MIB == SIZE_2MIB * n + 0;
  }

  /** The debug assertions `allocate_frame` can reach: those of `set_used_lock`, or a zero counter when nothing is found. */
  ghost predicate AllocateAllowed(s: Bitmaps, size: FrameSize)
    requires WellFormed(s)
  {
    match Candidate(s, size)
    case None => (if size == Size4KiB then s.free4k else s.free2m) == 0
    case Some(addr) => SetUsedAllowed(s, addr, size)
  }

  /** The picked address lies inside the tracked range, so `set_used_lock` accepts it. */
  lemma CandidateInRange(s: Bitmaps, size: FrameSize)
    requires Candidate(s, size).Some?
    ensures InRange(s, Candidate(s, size).value, size)
  {
    var ws := if size == Size4KiB then s.fourKilo else s.twoMega;
    var from := if size == Size4KiB then s.next4kGuess else s.next2mGuess;
    var i := FirstNotFull(ws, from).value;
    var n := WORD_BITS * i + TrailingOnes(ws[i]);
    assert Candidate(s, size).value / SizeBytes(size) == n;
    assert n / WORD_BITS == i;
  }

  /**
   * `allocate_frame::<S>()`: the frame address it returns and the new state.
   * The address is aligned to the frame size and inside the tracked range;
   * without one, nothing changes.
   */
  function Allocate(s: Bitmaps, size: FrameSize): (r: (Option<nat>, Bitmaps))
    requires WellFormed(s)
    ensures WellFormed(r.1) && |r.1.fourKilo| == |s.fourKilo| && |r.1.twoMega| == |s.twoMega|
    ensures r.0.None? ==> r.1 == s
    ensures r.0.Some? ==> r.0.value % SizeBytes(size) == 0 && InRange(s, r.0.value, size)
  {
    match Candidate(s, size)
    case None => (None, s)
    case Some(addr) =>
      CandidateInRange(s, size);
      (Some(addr), SetUsed(s, addr, size).value)
  }

  /** `deallocate_frame`: `set_unused_lock` with its result dropped, so an address out of range changes nothing. */
  function Deallocate(s: Bitmaps, addr: nat, size: FrameSize): (r: Bitmaps)
    requires WellFormed(s)
    ensures WellFormed(r) && |r.fourKilo| == |s.fourKilo| && |r.twoMega| == |s.twoMega|
    ensures !InRange(s, addr, size) ==> r == s
  {
    match SetUnused(s, addr, size)
    case None => s
    case Some(t) => t
  }

  /** `get_free_memory_size`: free 4 KiB frames times 4096. */
  function FreeMemorySize(s: Bitmaps): int {
    s.free4k * SIZE_4KIB
  }
}
