/**
 * Human-readable memory sizes. `format_size` of internal_utils/src/display/mod.rs
 * switches unit once the amount in the next unit would reach 4; the frame
 * allocator report of internal_utils/src/kernel_information/frame_allocator.rs
 * switches once it would reach 2. Both truncate.
 */
module SizeFormat {
  import opened Wrappers
  import opened Digits

  const KIB: nat := 1024
  const MIB: nat := 1048576
  const GIB: nat := 1073741824

  datatype Unit = Bytes | KiB | MiB | GiB

  function UnitBytes(u: Unit): nat {
    match u
    case Bytes => 1
    case KiB => KIB
    case MiB => MIB
    case GiB => GIB
  }

  function UnitName(u: Unit): string {
    match u
    case Bytes => "B"
    case KiB => "KiB"
    case MiB => "MiB"
    case GiB => "GiB"
  }

  /** The next larger unit, if any. */
  function Larger(u: Unit): Option<Unit> {
    match u
    case Bytes => Some(KiB)
    case KiB => Some(MiB)
    case MiB => Some(GiB)
    case GiB => None
  }

  /** An amount of some unit: what is shown. */
  datatype Scaled = Scaled(amount: nat, unit: Unit)

  /**
   * The scaling rule with switch-over factor `t` (4 for `format_size`, 2 for
   * the allocator report): the unit is the largest one in which the amount is
   * still at least `t`, bytes when even KiB falls short.
   */
  ghost predicate LargestUnit(b: nat, t: nat, u: Unit) {
    && (u == Bytes || b / UnitBytes(u) >= t)
    && (Larger(u).None? || b / UnitBytes(Larger(u).value) < t)
  }

  /** The arms of the `match` in `format_size`: the size, truncated, in the largest unit of which there are at least 4. */
  function DisplayScale(b: nat): (r: Scaled)
    ensures LargestUnit(b, 4, r.unit)
    ensures r.amount == b / UnitBytes(r.unit)
  {
    Thresholds(b, 4);
    if b < 4 * KIB then Scaled(b, Bytes)
    else if b < 4 * MIB then Scaled(b / KIB, KiB)
    else if b < 4 * GIB then Scaled(b / MIB, MiB)
    else Scaled(b / GIB, GiB)
  }

  /** The nested `if`s of `print_frame_memory`, applied alike to the total and the free memory. */
  function ReportScale(size: nat): Scaled {
    if size >= 2 * 1024 then
      if size < 2 * 1024 * 1024 then Scaled(size / 1024, KiB)
      else if size < 2 * 1024 * 1024 * 1024 then Scaled(size / (1024 * 1024), MiB)
      else Scaled(size / (1024 * 1024 * 1024), GiB)
    else Scaled(size, Bytes)
  }

  /** `b / unit` for a unit at least `t` times smaller than `b` is at least `t`, and so on: the four thresholds. */
  lemma Thresholds(b: nat, t: nat)
    requires t == 2 || t == 4
    ensures b / KIB >= t <==> b >= t * KIB
    ensures b / MIB >= t <==> b >= t * MIB
    ensures b / GIB >= t <==> b >= t * GIB
  {
  }

  /** `format_size` picks the largest unit whose amount is at least 4, and shows the amount truncated. */
  lemma DisplayScaleIsLargestUnit(b: nat, u: Unit)
    ensures LargestUnit(b, 4, u) <==> u == DisplayScale(b).unit
    ensures DisplayScale(b).amount == b / UnitBytes(DisplayScale(b).unit)
  {
    Thresholds(b, 4);
  }

  /** The report picks the largest unit whose amount is at least 2, and shows the amount truncated. */
  lemma ReportScaleIsLargestUnit(size: nat, u: Unit)
    ensures LargestUnit(size, 2, u) <==> u == ReportScale(size).unit
    ensures ReportScale(size).amount == size / UnitBytes(ReportScale(size).unit)
  {
    Thresholds(size, 2);
  }

  /** With KiB or MiB the amount shown by `format_size` is 4..4095; with GiB at least 4; bytes below 4096. */
  lemma DisplayAmountRange(b: nat)
    ensures var s := DisplayScale(b);
      && (s.unit == Bytes ==> s.amount < 4 * KIB)
      && (s.unit == KiB || s.unit == MiB ==> 4 <= s.amount < 4 * KIB)
      && (s.unit == GiB ==> s.amount >= 4)
  {
    Thresholds(b, 4);
  }

  /** With KiB or MiB the amount in the report is 2..2047; with GiB at least 2; bytes below 2048. */
  lemma ReportAmountRange(size: nat)
    ensures var s := ReportScale(size);
      && (s.unit == Bytes ==> s.amount < 2 * KIB)
      && (s.unit == KiB || s.unit == MiB ==> 2 <= s.amount < 2 * KIB)
      && (s.unit == GiB ==> s.amount >= 2)
  {
    Thresholds(size, 2);
  }

  /** Below 2 KiB, and from 4 GiB on, both rules show the same; in between the report switches earlier. */
  lemma RulesAgreeAtTheEnds(b: nat)
    ensures b < 2 * KIB || b >= 4 * GIB ==> DisplayScale(b) == ReportScale(b)
    ensures 2 * KIB <= b < 4 * KIB ==> DisplayScale(b).unit == Bytes && ReportScale(b).unit == KiB
  {
  }

  /** `format!("{} {}", amount, unit)`. */
  function Render(s: Scaled): string {
    Numeral(s.amount, 10) + " " + UnitName(s.unit)
  }

  /** `format_size(bytes)`: its text reads back as the truncated amount in the largest unit with at least 4 of it. */
  function FormatSize(b: nat): (text: string)
    ensures ParseSize(text).Some?
    ensures var s := ParseSize(text).value; LargestUnit(b, 4, s.unit) && s.amount == b / UnitBytes(s.unit)
  {
    RenderRoundTrip(DisplayScale(b));
    Render(DisplayScale(b))
  }

  function UnitOfName(name: string): Option<Unit> {
    if name == "B" then Some(Bytes)
    else if name == "KiB" then Some(KiB)
    else if name == "MiB" then Some(MiB)
    else if name == "GiB" then Some(GiB)
    else None
  }

  /** Index of the first space, if any. */
  function FirstSpace(s: string): (r: Option<nat>)
    ensures r.Some? ==> r.value < |s| && s[r.value] == ' ' && forall i :: 0 <= i < r.value ==> s[i] != ' '
    ensures r.None? ==> forall i :: 0 <= i < |s| ==> s[i] != ' '
  {
    if |s| == 0 then None
    else if s[0] == ' ' then Some(0)
    else match FirstSpace(s[1..])
      case None => None
      case Some(i) => Some(i + 1)
  }

  /** A space right after a space-free prefix is the first one. */
  lemma {:induction false} FirstSpaceAfter(a: string, b: string)
    requires forall i :: 0 <= i < |a| ==> a[i] != ' '
    ensures FirstSpace(a + [' '] + b) == Some(|a|)
  {
    if |a| > 0 {
      assert (a + [' '] + b)[1..] == a[1..] + [' '] + b;
      FirstSpaceAfter(a[1..], b);
    }
  }

  /** Reads "<decimal> <unit>" back. */
  function ParseSize(s: string): Option<Scaled> {
    match FirstSpace(s)
    case None => None
    case Some(i) =>
      match (ParseNumeral(s[..i], 10), UnitOfName(s[i + 1..]))
      case (Some(n), Some(u)) => Some(Scaled(n, u))
      case _ => None
  }

  /** A rendered size reads back as the amount and unit it was made from. */
  lemma RenderRoundTrip(s: Scaled)
    ensures ParseSize(Render(s)) == Some(s)
  {
    var digits, name := Numeral(s.amount, 10), UnitName(s.unit);
    var text := Render(s);
    assert text == digits + [' '] + name;
    NumeralDigits(s.amount, 10);
    assert forall i :: 0 <= i < |digits| ==> digits[i] != ' ';
    FirstSpaceAfter(digits, name);
    assert text[..|digits|] == digits;
    assert text[|digits| + 1..] == name;
    NumeralRoundTrip(s.amount, 10);
    UnitNameRoundTrip(s.unit);
  }

  /** Each unit's name reads back as that unit. */
  lemma UnitNameRoundTrip(u: Unit)
    ensures UnitOfName(UnitName(u)) == Some(u)
  {
  }
}
