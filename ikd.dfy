/**
 * The in-kernel debugger shell of internal_utils/src/ikd.rs: dispatching a
 * command line to the first command whose name prefixes it, splitting its
 * arguments, parsing `from:to` hexadecimal ranges, and the hex-and-text
 * layout of a memory dump.
 */
module Debugger {
  import opened Wrappers
  import opened Digits

  // ---------------------------------------------------------------- whitespace

  /** `char::is_whitespace`: the Unicode `White_Space` characters. */
  predicate IsWhitespace(c: char) {
    var n := c as int;
    || n == 0x20 || 0x09 <= n <= 0x0D || n == 0x85 || n == 0xA0 || n == 0x1680
    || 0x2000 <= n <= 0x200A || n == 0x2028 || n == 0x2029 || n == 0x202F || n == 0x205F || n == 0x3000
  }

  /** `s` without its leading whitespace. */
  function TrimStart(s: string): (r: string)
    ensures |r| <= |s| && forall k :: 0 <= k < |r| ==> r[k] == s[|s| - |r| + k]
    ensures r != [] ==> !IsWhitespace(r[0])
    ensures forall k :: 0 <= k < |s| - |r| ==> IsWhitespace(s[k])
  {
    if s != [] && IsWhitespace(s[0]) then TrimStart(s[1..]) else s
  }

  /** `s` without its trailing whitespace. */
  function TrimEnd(s: string): (r: string)
    ensures |r| <= |s| && forall k :: 0 <= k < |r| ==> r[k] == s[k]
    ensures r != [] ==> !IsWhitespace(r[|r| - 1])
    ensures forall k :: |r| <= k < |s| ==> IsWhitespace(s[k])
  {
    if s != [] && IsWhitespace(s[|s| - 1]) then TrimEnd(s[..|s| - 1]) else s
  }

  /** `str::trim`. */
  function Trim(s: string): string {
    TrimEnd(TrimStart(s))
  }

  /** The characters up to the first whitespace. */
  function TakeWord(s: string): (w: string)
    ensures |w| <= |s| && w == s[..|w|]
    ensures forall k :: 0 <= k < |w| ==> !IsWhitespace(w[k])
    ensures |w| < |s| ==> IsWhitespace(s[|w|])
    ensures s != [] && !IsWhitespace(s[0]) ==> w != []
  {
    if s == [] || IsWhitespace(s[0]) then [] else [s[0]] + TakeWord(s[1..])
  }

  /** A non-empty run of non-whitespace characters. */
  predicate IsWord(w: string) {
    w != [] && forall j :: 0 <= j < |w| ==> !IsWhitespace(w[j])
  }

  /** `str::split_whitespace`: the maximal runs of non-whitespace characters, in order. */
  function Words(s: string): (ws: seq<string>)
    ensures forall k :: 0 <= k < |ws| ==> IsWord(ws[k])
    decreases |s|
  {
    var t := TrimStart(s);
    if t == [] then []
    else
      var w := TakeWord(t);
      assert IsWord(w);
      var rest := Words(t[|w|..]);
      AllWordsCons(w, rest);
      [w] + rest
  }

  lemma AllWordsCons(w: string, rest: seq<string>)
    requires IsWord(w) && forall k :: 0 <= k < |rest| ==> IsWord(rest[k])
    ensures forall k :: 0 <= k < |rest| + 1 ==> IsWord(([w] + rest)[k])
  {
    forall k | 0 <= k < |rest| + 1
      ensures IsWord(([w] + rest)[k])
    {
      if k > 0 {
        assert ([w] + rest)[k] == rest[k - 1];
      }
    }
  }

  /** Words separated by single spaces. */
  function JoinSpaced(ws: seq<string>): string {
    if ws == [] then "" else if |ws| == 1 then ws[0] else ws[0] + " " + JoinSpaced(ws[1..])
  }

  /** A word directly followed by whitespace or the end is taken whole. */
  lemma {:induction false} TakeWordOf(w: string, rest: string)
    requires forall j :: 0 <= j < |w| ==> !IsWhitespace(w[j])
    requires rest == [] || IsWhitespace(rest[0])
    ensures TakeWord(w + rest) == w
    decreases |w|
  {
    if w != [] {
      assert (w + rest)[1..] == w[1..] + rest;
      TakeWordOf(w[1..], rest);
    }
  }

  /** A word followed by whitespace or the end is split off first. */
  lemma WordsCons(w: string, rest: string)
    requires IsWord(w)
    requires rest == [] || IsWhitespace(rest[0])
    ensures Words(w + rest) == [w] + Words(rest)
  {
    var s := w + rest;
    assert s[0] == w[0];
    assert TrimStart(s) == s;
    TakeWordOf(w, rest);
    assert s[|w|..] == rest;
  }

  /** A leading space separates nothing. */
  lemma WordsSpace(s: string)
    ensures Words(" " + s) == Words(s)
  {
    assert (" " + s)[1..] == s;
    assert TrimStart(" " + s) == TrimStart(s);
  }

  /** Splitting words joined by spaces gives the words back. */
  lemma {:induction false} WordsOfJoined(ws: seq<string>)
    requires forall k :: 0 <= k < |ws| ==> IsWord(ws[k])
    ensures Words(JoinSpaced(ws)) == ws
    decreases |ws|
  {
    if ws == [] {
    } else if |ws| == 1 {
      WordsCons(ws[0], []);
      assert ws[0] + [] == ws[0];
    } else {
      var rest := JoinSpaced(ws[1..]);
      assert JoinSpaced(ws) == ws[0] + (" " + rest);
      WordsCons(ws[0], " " + rest);
      WordsSpace(rest);
      WordsOfJoined(ws[1..]);
      assert [ws[0]] + ws[1..] == ws;
    }
  }

  // ---------------------------------------------------------------- dispatch

  /** The handlers of the shell's commands. */
  datatype Handler = Help | Memory | Exit | Kernel | Clocks

  /** `COMMANDS`, in the order they are tried. */
  const COMMANDS: seq<(string, Handler)> :=
    [("help", Help), ("memory", Memory), ("exit", Exit), ("kernel", Kernel), ("clocks", Clocks)]

  /** Command `k` is the first whose name starts `line`. */
  predicate FirstMatch(line: string, k: nat) {
    k < |COMMANDS| && COMMANDS[k].0 <= line && forall j :: 0 <= j < k ==> !(COMMANDS[j].0 <= line)
  }

  /** At most one command is the first to match. */
  lemma FirstMatchUnique(line: string, k: nat)
    requires FirstMatch(line, k)
    ensures forall m: nat :: FirstMatch(line, m) ==> m == k
  {
  }

  /** The position of the first command from `i` on whose name starts `line`. */
  function FindCommand(line: string, i: nat): (k: Option<nat>)
    requires i <= |COMMANDS|
    ensures k.Some? ==> i <= k.value < |COMMANDS| && COMMANDS[k.value].0 <= line
    ensures k.Some? ==> forall j :: i <= j < k.value ==> !(COMMANDS[j].0 <= line)
    ensures k.None? ==> forall j :: i <= j < |COMMANDS| ==> !(COMMANDS[j].0 <= line)
    decreases |COMMANDS| - i
  {
    if i == |COMMANDS| then None
    else if COMMANDS[i].0 <= line then Some(i)
    else FindCommand(line, i + 1)
  }

  /**
   * `parse_command`: the handler of the first command whose name prefixes the
   * trimmed line, with the words after that prefix as its arguments; `None`
   * where the shell answers "Invalid command".
   */
  function ParseCommand(line: string): (r: Option<(Handler, seq<string>)>)
    ensures r.None? <==> forall j :: 0 <= j < |COMMANDS| ==> !(COMMANDS[j].0 <= Trim(line))
    ensures forall k: nat :: FirstMatch(Trim(line), k) ==>
      r == Some((COMMANDS[k].1, Words(Trim(line)[|COMMANDS[k].0|..])))
    ensures r.Some? ==> forall a :: 0 <= a < |r.value.1| ==> IsWord(r.value.1[a])
  {
    var command := Trim(line);
    match FindCommand(command, 0)
    case None => None
    case Some(k) =>
      FirstMatchUnique(command, k);
      Some((COMMANDS[k].1, Words(command[|COMMANDS[k].0|..])))
  }

  /** `help` followed by a word has no whitespace to trim, and `help` is the first command that prefixes it. */
  lemma HelpPrefixDispatch(w: string)
    requires IsWord(w)
    ensures Trim("help" + w) == "help" + w && FindCommand("help" + w, 0) == Some(0)
  {
    var line := "help" + w;
    assert line[0] == 'h' && line[|line| - 1] == w[|w| - 1];
    assert TrimStart(line) == line;
    assert TrimEnd(line) == line;
    assert COMMANDS[0].0 == "help";
    assert "help" <= line;
  }

  /** A single word splits into itself. */
  lemma WordsOfWord(w: string)
    requires IsWord(w)
    ensures Words(w) == [w]
  {
    WordsCons(w, []);
    assert w + [] == w;
  }

  /** Dispatch is by prefix only: `help` directly followed by a word (`helpx`) runs `help`, with that word as its argument. */
  lemma HelpPrefixIsHelp(w: string)
    requires IsWord(w)
    ensures ParseCommand("help" + w) == Some((Help, [w]))
  {
    HelpPrefixDispatch(w);
    assert ("help" + w)[4..] == w;
    WordsOfWord(w);
  }

  // ---------------------------------------------------------------- memory

  /** What the `memory` command does with its arguments. */
  datatype MemoryAction =
    | ShowInfo
    | ViewSlice(from: nat, to: nat, offset: nat)
    | MissingRange
    | InvalidSubcommand
    | ListSubcommands

  /** `str::split(':')`: the pieces between the separators; more than one exactly when there is a separator. */
  function SplitColon(s: string): (parts: seq<string>)
    ensures |parts| >= 1 && (|parts| == 1 <==> ':' !in s)
    ensures forall k :: 0 <= k < |parts| ==> ':' !in parts[k]
  {
    if s == [] then [""]
    else
      assert s == [s[0]] + s[1..];
      if s[0] == ':' then [""] + SplitColon(s[1..])
      else
        var rest := SplitColon(s[1..]);
        [[s[0]] + rest[0]] + rest[1..]
  }

  /** There is one more piece than the text has separators. */
  lemma {:induction false} SplitColonCount(s: string)
    ensures |SplitColon(s)| == multiset(s)[':'] + 1
    decreases |s|
  {
    if s != [] {
      SplitColonCount(s[1..]);
      assert s == [s[0]] + s[1..];
    }
  }

  /** `[T]::join(":")`: the pieces with a separator between each two. */
  function JoinColon(ps: seq<string>): string
    requires |ps| >= 1
  {
    if |ps| == 1 then ps[0] else ps[0] + ":" + JoinColon(ps[1..])
  }

  /** With more than one piece, the first is followed by a separator and the join of the rest. */
  lemma JoinColonFirst(p: string, rest: seq<string>)
    requires rest != []
    ensures JoinColon([p] + rest) == p + ":" + JoinColon(rest)
  {
    assert ([p] + rest)[1..] == rest;
  }

  /** Prefixing the first piece with a character prefixes the joined text with it. */
  lemma JoinColonCons(c: char, p: string, rest: seq<string>)
    ensures JoinColon([[c] + p] + rest) == [c] + JoinColon([p] + rest)
  {
    if rest != [] {
      JoinColonFirst([c] + p, rest);
      JoinColonFirst(p, rest);
      assert ([c] + p) + ":" + JoinColon(rest) == [c] + (p + ":" + JoinColon(rest));
    }
  }

  /** Joining the pieces with ':' gives the text back: splitting loses nothing. */
  lemma {:induction false} SplitColonJoin(s: string)
    ensures JoinColon(SplitColon(s)) == s
    decreases |s|
  {
    if s != [] {
      var rest := SplitColon(s[1..]);
      SplitColonJoin(s[1..]);
      assert s == [s[0]] + s[1..];
      if s[0] == ':' {
        JoinColonFirst("", rest);
      } else {
        assert rest == [rest[0]] + rest[1..];
        JoinColonCons(s[0], rest[0], rest[1..]);
      }
    }
  }

  /** A piece without a separator, followed by one, is split off first. */
  lemma {:induction false} SplitColonAfter(x: string, y: string)
    requires ':' !in x
    ensures SplitColon(x + ":" + y) == [x] + SplitColon(y)
    decreases |x|
  {
    if x != [] {
      assert x[0] in x;
      assert (x + ":" + y)[0] == x[0] != ':';
      assert (x + ":" + y)[1..] == x[1..] + ":" + y;
      assert forall c :: c in x[1..] ==> c in x;
      SplitColonAfter(x[1..], y);
      assert [x[0]] + x[1..] == x;
    } else {
      assert x + ":" + y == ":" + y;
    }
  }

  /** Text without a separator is one piece. */
  lemma {:induction false} SplitColonNone(x: string)
    requires ':' !in x
    ensures SplitColon(x) == [x]
    decreases |x|
  {
    if x != [] {
      assert x[0] in x;
      assert forall c :: c in x[1..] ==> c in x;
      SplitColonNone(x[1..]);
      assert [x[0]] + x[1..] == x;
    }
  }

  const USIZE_LIMIT: nat := 0x1_0000_0000_0000_0000

  /** The digits of a numeral: the text after one optional leading `+`. */
  function Unsigned(s: string): string {
    if s != [] && s[0] == '+' then s[1..] else s
  }

  /** `usize::from_str_radix(s, 16)`: an optional `+`, then at least one hexadecimal digit, within `usize`. */
  function FromStrRadix16(s: string): (r: Option<nat>)
    ensures ParseNumeral(Unsigned(s), 16).Some? <==> IsDigitString(Unsigned(s), 16)
    ensures r.Some? <==> IsDigitString(Unsigned(s), 16) && ParseNumeral(Unsigned(s), 16).value < USIZE_LIMIT
    ensures r.Some? ==> Some(r.value) == ParseNumeral(Unsigned(s), 16) && r.value < USIZE_LIMIT
  {
    ParseNumeralDefined(Unsigned(s), 16);
    if s == [] then None
    else
      var digits := if s[0] == '+' then s[1..] else s;
      match ParseNumeral(digits, 16)
      case None => None
      case Some(v) => if v < USIZE_LIMIT then Some(v) else None
  }

  /** `get_from_to`: the next argument split at ':', its first two pieces read as hexadecimal; later pieces are ignored. */
  function GetFromTo(args: seq<string>): (r: Option<(nat, nat)>)
    ensures r.Some? <==> (args != [] && ':' in args[0]
      && FromStrRadix16(SplitColon(args[0])[0]).Some? && FromStrRadix16(SplitColon(args[0])[1]).Some?)
    ensures r.Some? ==> r.value.0 < USIZE_LIMIT && r.value.1 < USIZE_LIMIT
    ensures r.Some? ==> Some(r.value.0) == FromStrRadix16(SplitColon(args[0])[0]) && Some(r.value.1) == FromStrRadix16(SplitColon(args[0])[1])
  {
    if args == [] then None
    else
      var parts := SplitColon(args[0]);
      match FromStrRadix16(parts[0])
      case None => None
      case Some(from) =>
        if |parts| < 2 then None
        else match FromStrRadix16(parts[1])
          case None => None
          case Some(to) => Some((from, to))
  }

  /** Hexadecimal numerals hold neither ':' nor '+'. */
  lemma NumeralPlain(v: nat)
    ensures ':' !in Numeral(v, 16) && Numeral(v, 16)[0] != '+'
  {
    NumeralDigits(v, 16);
    assert HexDigitValue(':').None? && HexDigitValue('+').None?;
  }

  /** A `usize` written in hexadecimal reads back as itself, with or without a leading `+`. */
  lemma FromStrRadix16RoundTrip(v: nat)
    requires v < USIZE_LIMIT
    ensures FromStrRadix16(Numeral(v, 16)) == Some(v)
    ensures FromStrRadix16("+" + Numeral(v, 16)) == Some(v)
  {
    NumeralPlain(v);
    NumeralRoundTrip(v, 16);
    assert ("+" + Numeral(v, 16))[1..] == Numeral(v, 16);
  }

  /** `{:X}:{:X}` of two `usize` values reads back as those values, whatever follows. */
  lemma GetFromToRoundTrip(from: nat, to: nat, rest: seq<string>)
    requires from < USIZE_LIMIT && to < USIZE_LIMIT
    ensures GetFromTo([Numeral(from, 16) + ":" + Numeral(to, 16)] + rest) == Some((from, to))
  {
    NumeralPlain(from);
    NumeralPlain(to);
    SplitColonAfter(Numeral(from, 16), Numeral(to, 16));
    SplitColonNone(Numeral(to, 16));
    NumeralRoundTrip(from, 16);
    NumeralRoundTrip(to, 16);
  }

  /** The `memory` command: `info`, `view from:to` at offset 0, `viewp from:to` at the physical-memory offset. */
  function MemoryCommand(args: seq<string>, physicalMemoryOffset: nat): (r: MemoryAction)
    ensures r == ListSubcommands <==> args == []
    ensures r == ShowInfo <==> args != [] && args[0] == "info"
    ensures r.ViewSlice? || r == MissingRange <==> args != [] && (args[0] == "view" || args[0] == "viewp")
    ensures r.ViewSlice? <==> args != [] && (args[0] == "view" || args[0] == "viewp") && GetFromTo(args[1..]).Some?
    ensures r.ViewSlice? ==> r.from < USIZE_LIMIT && r.to < USIZE_LIMIT
    ensures r.ViewSlice? ==> r.offset == if args[0] == "view" then 0 else physicalMemoryOffset
  {
    if args == [] then ListSubcommands
    else if args[0] == "info" then ShowInfo
    else if args[0] == "view" || args[0] == "viewp" then
      match GetFromTo(args[1..])
      case None => MissingRange
      case Some((from, to)) => ViewSlice(from, to, if args[0] == "view" then 0 else physicalMemoryOffset)
    else InvalidSubcommand
  }

  /** `view` and `viewp` show the same range, one at address `from` itself and one at `from` plus the physical-memory offset. */
  lemma ViewOffsets(from: nat, to: nat, physicalMemoryOffset: nat)
    requires from < USIZE_LIMIT && to < USIZE_LIMIT
    ensures var range := Numeral(from, 16) + ":" + Numeral(to, 16);
      && MemoryCommand(["view", range], physicalMemoryOffset) == ViewSlice(from, to, 0)
      && MemoryCommand(["viewp", range], physicalMemoryOffset) == ViewSlice(from, to, physicalMemoryOffset)
  {
    var range := Numeral(from, 16) + ":" + Numeral(to, 16);
    GetFromToRoundTrip(from, to, []);
    assert ["view", range][1..] == [range] + [];
    assert ["viewp", range][1..] == [range] + [];
  }

  /** The `kernel` command: `info` or an invalid subcommand; with none, the list of subcommands. */
  function KernelCommand(args: seq<string>): (r: MemoryAction)
    ensures r == ListSubcommands <==> args == []
    ensures r == ShowInfo <==> args != [] && args[0] == "info"
    ensures !r.ViewSlice? && r != MissingRange
  {
    if args == [] then ListSubcommands else if args[0] == "info" then ShowInfo else InvalidSubcommand
  }

  /**
   * `kernel` reads only its first argument, and answers as `memory` does for
   * every first argument other than `view` and `viewp`.
   */
  lemma KernelLikeMemory(args: seq<string>, physicalMemoryOffset: nat)
    requires args == [] || (args[0] != "view" && args[0] != "viewp")
    ensures KernelCommand(args) == MemoryCommand(args, physicalMemoryOffset)
    ensures args != [] ==> KernelCommand(args) == KernelCommand(args[..1])
  {
  }

  // ---------------------------------------------------------------- memory dump

  /** `char::is_ascii_alphanumeric` of the byte's character. */
  predicate IsAsciiAlphanumeric(b: Byte) {
    0x30 <= b <= 0x39 || 0x41 <= b <= 0x5A || 0x61 <= b <= 0x7A
  }

  /** The character column's entry for a byte. */
  function Shown(b: Byte): char {
    if IsAsciiAlphanumeric(b) then b as char else '.'
  }

  /** `{:02X} ` of each byte. */
  function HexColumn(bs: seq<Byte>): (s: string)
    ensures |s| == 3 * |bs|
  {
    if bs == [] then "" else HexColumn(bs[..|bs| - 1]) + FixedHex(bs[|bs| - 1], 2) + " "
  }

  /** The character column of a line. */
  function CharColumn(bs: seq<Byte>): (s: string)
    ensures |s| == |bs|
  {
    seq(|bs|, k requires 0 <= k < |bs| => Shown(bs[k]))
  }

  /** One line of the dump: the hex column, a bar, then the character column. */
  function Line(bs: seq<Byte>): string {
    HexColumn(bs) + "| " + CharColumn(bs) + "\n"
  }

  /** The lines of a dump whose length is a multiple of 16. */
  function FullLines(bs: seq<Byte>): string
    requires |bs| % 16 == 0
  {
    if bs == [] then "" else FullLines(bs[..|bs| - 16]) + Line(bs[|bs| - 16..])
  }

  /** The text `view_memory_slice` logs for the bytes `bs`: a line per 16 bytes, then a line for the remainder. */
  function Dump(bs: seq<Byte>): string {
    var full := |bs| - |bs| % 16;
    FullLines(bs[..full]) + (if |bs| % 16 != 0 then Line(bs[full..]) else "")
  }

  /** Appending a byte appends its hex entry. */
  lemma HexColumnSnoc(bs: seq<Byte>, b: Byte)
    ensures HexColumn(bs + [b]) == HexColumn(bs) + FixedHex(b, 2) + " "
  {
    assert (bs + [b])[..|bs|] == bs;
  }

  /** Appending sixteen bytes appends their line. */
  lemma FullLinesSnoc(bs: seq<Byte>, line: seq<Byte>)
    requires |bs| % 16 == 0 && |line| == 16
    ensures |bs + line| % 16 == 0
    ensures FullLines(bs + line) == FullLines(bs) + Line(line)
  {
    assert (bs + line)[..|bs + line| - 16] == bs;
    assert (bs + line)[|bs + line| - 16..] == line;
  }

  /** `16 * q + c` with `c < 16` leaves `c` as its remainder by 16. */
  lemma Column(q: nat, c: nat)
    requires c < 16
    ensures (16 * q + c) / 16 == q && (16 * q + c) % 16 == c
  {
    DivModUnique(16 * q + c, 16, q, c);
  }

  /** Each full line is 16 * 4 + 3 characters long. */
  lemma {:induction false} FullLinesLength(bs: seq<Byte>)
    requires |bs| % 16 == 0
    ensures |FullLines(bs)| == 4 * |bs| + 3 * (|bs| / 16)
    decreases |bs|
  {
    if bs != [] {
      var q := |bs| / 16;
      Column(q, 0);
      assert |bs| == 16 * q;
      Column(q - 1, 0);
      FullLinesLength(bs[..|bs| - 16]);
    }
  }

  /** `n` bytes make `n / 16` full lines and, with a remainder, one more: `ceil(n / 16)` lines. */
  lemma LineCount(n: nat)
    ensures n - n % 16 == 16 * (n / 16) && (16 * (n / 16)) % 16 == 0 && (16 * (n / 16)) / 16 == n / 16
    ensures (n + 15) / 16 == if n % 16 == 0 then n / 16 else n / 16 + 1
  {
    var q, r := n / 16, n % 16;
    Column(q, r);
    Column(q, 0);
    if r == 0 {
      Column(q, 15);
    } else {
      Column(q + 1, r - 1);
    }
  }

  /** A dump is four characters per byte plus three per line, with `ceil(n / 16)` lines. */
  lemma DumpLength(bs: seq<Byte>)
    ensures |Dump(bs)| == 4 * |bs| + 3 * ((|bs| + 15) / 16)
  {
    var n := |bs|;
    var full := n - n % 16;
    LineCount(n);
    FullLinesLength(bs[..full]);
    assert |FullLines(bs[..full])| == 4 * full + 3 * (n / 16);
    if n % 16 != 0 {
      assert |Line(bs[full..])| == 4 * (n % 16) + 3;
    }
  }

  /** The bytes `view_memory_slice(from, to, offset)` reads: `to - from + 1` of them from `from + offset`. */
  function Slice(memory: nat -> Byte, start: nat, count: nat): (bs: seq<Byte>)
    ensures |bs| == count
  {
    seq(count, k requires 0 <= k < count => memory(start + k))
  }

  /** Within the line starting at `start`, a position's remainder by 16 is its column. */
  lemma InLine(start: nat, index: nat)
    requires start % 16 == 0 && start <= index <= start + 16
    ensures index < start + 16 ==> index % 16 == index - start
    ensures index % 16 == 0 <==> index == start || index == start + 16
    ensures (start + 16) % 16 == 0
  {
    var q := start / 16;
    Column(q, 0);
    assert start == 16 * q;
    Column(q + 1, 0);
    if index < start + 16 {
      Column(q, index - start);
    }
  }

  /** The dump so far: the full lines before `start`, then the hex entries of the bytes from `start` to `index`. */
  function Partial(bs: seq<Byte>, start: nat, index: nat): string
    requires start % 16 == 0 && start <= index <= |bs|
  {
    FullLines(bs[..start]) + HexColumn(bs[start..index])
  }

  /** What has been logged once the first `index` bytes are handled. */
  function Logged(bs: seq<Byte>, index: nat): string
    requires index <= |bs|
  {
    var start := index - index % 16;
    Column(index / 16, index % 16);
    Partial(bs, start, index)
  }

  /** The characters of the line still open once the first `index` bytes are handled. */
  function OpenChars(bs: seq<Byte>, index: nat): (cs: string)
    requires index <= |bs|
    ensures |cs| == index % 16
  {
    CharColumn(bs[index - index % 16..index])
  }

  /** Logging one more byte extends the partial dump by its hex entry. */
  lemma PartialByte(bs: seq<Byte>, start: nat, index: nat)
    requires start % 16 == 0 && start <= index < |bs|
    ensures Partial(bs, start, index + 1) == Partial(bs, start, index) + FixedHex(bs[index], 2) + " "
  {
    assert bs[start..index + 1] == bs[start..index] + [bs[index]];
    HexColumnSnoc(bs[start..index], bs[index]);
  }

  /** Closing a line of sixteen bytes with their characters completes one more full line. */
  lemma PartialLine(bs: seq<Byte>, start: nat)
    requires start % 16 == 0 && start + 16 <= |bs|
    ensures (start + 16) % 16 == 0
    ensures Partial(bs, start, start + 16) + "| " + CharColumn(bs[start..start + 16]) + "\n" == Partial(bs, start + 16, start + 16)
  {
    assert bs[..start + 16] == bs[..start] + bs[start..start + 16];
    FullLinesSnoc(bs[..start], bs[start..start + 16]);
    assert bs[start + 16..start + 16] == [];
  }

  /** Where the next index falls: in the same line, or on the start of the next one. */
  lemma NextIndex(index: nat)
    ensures (index - index % 16) % 16 == 0 && index - index % 16 <= index < index - index % 16 + 16
    ensures (index + 1) % 16 == if index % 16 == 15 then 0 else index % 16 + 1
    ensures (index + 1) % 16 != 0 ==> (index + 1) - (index + 1) % 16 == index - index % 16
  {
    var q, c := index / 16, index % 16;
    Column(q, c);
    Column(q, 0);
    if c == 15 {
      Column(q + 1, 0);
    } else {
      Column(q, c + 1);
    }
  }

  /** A byte that does not end its line: its hex entry is logged and its character joins the open line. */
  lemma StepOpen(bs: seq<Byte>, index: nat)
    requires index < |bs| && (index + 1) % 16 != 0
    ensures Logged(bs, index + 1) == Logged(bs, index) + FixedHex(bs[index], 2) + " "
    ensures OpenChars(bs, index + 1) == OpenChars(bs, index) + [Shown(bs[index])]
  {
    var start := index - index % 16;
    NextIndex(index);
    PartialByte(bs, start, index);
    assert bs[start..index + 1] == bs[start..index] + [bs[index]];
  }

  /** A byte that ends its line: its hex entry and then the whole line's characters are logged. */
  lemma StepClose(bs: seq<Byte>, index: nat)
    requires index < |bs| && (index + 1) % 16 == 0
    ensures Logged(bs, index + 1) == Logged(bs, index) + FixedHex(bs[index], 2) + " " + "| " + (OpenChars(bs, index) + [Shown(bs[index])]) + "\n"
  {
    var start := index - index % 16;
    NextIndex(index);
    assert index + 1 == start + 16;
    PartialByte(bs, start, index);
    assert bs[start..index + 1] == bs[start..index] + [bs[index]];
    PartialLine(bs, start);
    Column((index + 1) / 16, 0);
  }

  /**
   * One step of `view_memory_slice`: the byte's hex entry is logged and its
   * character joins the open line; a line that reaches sixteen characters is
   * logged and closed.
   */
  lemma Step(bs: seq<Byte>, index: nat)
    requires index < |bs|
    ensures (index + 1) % 16 == if index % 16 == 15 then 0 else index % 16 + 1
    ensures (index + 1) % 16 != 0 ==>
      && Logged(bs, index + 1) == Logged(bs, index) + FixedHex(bs[index], 2) + " "
      && OpenChars(bs, index + 1) == OpenChars(bs, index) + [Shown(bs[index])]
    ensures (index + 1) % 16 == 0 ==>
      Logged(bs, index + 1) == Logged(bs, index) + FixedHex(bs[index], 2) + " " + "| " + (OpenChars(bs, index) + [Shown(bs[index])]) + "\n"
  {
    NextIndex(index);
    if (index + 1) % 16 == 0 {
      StepClose(bs, index);
    } else {
      StepOpen(bs, index);
    }
  }

  /** After the last byte, the open line closed by its characters (if it has any) makes the whole dump. */
  lemma Finish(bs: seq<Byte>)
    ensures Dump(bs) == if |bs| % 16 != 0 then Logged(bs, |bs|) + "| " + OpenChars(bs, |bs|) + "\n" else Logged(bs, |bs|)
  {
    var start := |bs| - |bs| % 16;
    assert bs[start..|bs|] == bs[start..];
  }

  /** Writing slot `c` of a buffer makes its first `c + 1` entries the old first `c` and the new one. */
  lemma UpdatePrefix(a: seq<char>, c: nat, v: char)
    requires c < |a|
    ensures a[c := v][..c + 1] == a[..c] + [v]
  {
  }

  /**
   * One pass of the loop of `view_memory_slice`: byte `index` is logged in
   * hex and its character written to the line buffer; the sixteenth byte of a
   * line also logs the buffer.
   */
  method LogByte(ghost bytes: seq<Byte>, buffer: array<char>, index: nat, value: Byte, out: string) returns (next: string)
    requires buffer.Length == 16 && index < |bytes| && value == bytes[index]
    requires out == Logged(bytes, index) && buffer[..index % 16] == OpenChars(bytes, index)
    modifies buffer
    ensures next == Logged(bytes, index + 1)
    ensures buffer[..(index + 1) % 16] == OpenChars(bytes, index + 1)
  {
    Step(bytes, index);
    ghost var open := buffer[..index % 16] + [Shown(value)];
    next := out + FixedHex(value, 2) + " ";
    ghost var before := buffer[..];
    buffer[index % 16] := Shown(value);
    assert buffer[..] == before[index % 16 := Shown(value)];
    UpdatePrefix(before, index % 16, Shown(value));
    if (index + 1) % 16 == 0 {
      assert buffer[..] == open;
      next := next + "| " + buffer[..] + "\n";
    }
  }

  /**
   * `view_memory_slice`: dumps the inclusive range `from..=to` at `offset`.
   * `memory` stands for the bytes the raw pointers read.
   */
  method ViewMemorySlice(from: nat, to: nat, offset: nat, memory: nat -> Byte) returns (out: Option<string>)
    ensures out.None? <==> from > to
    ensures from <= to ==> out == Some(Dump(Slice(memory, from + offset, to - from + 1)))
  {
    if from > to {
      // `to - from` underflows its `u64` before the first pass of the loop.
      return None;
    }
    ghost var bytes := Slice(memory, from + offset, to - from + 1);
    var index := 0;
    var buffer := new char[16](_ => '.');
    var text := "";
    while index <= to - from
      invariant index <= |bytes| && buffer.Length == 16
      invariant text == Logged(bytes, index)
      invariant buffer[..index % 16] == OpenChars(bytes, index)
    {
      var value := memory(index + from + offset);
      assert value == bytes[index];
      text := LogByte(bytes, buffer, index, value, text);
      index := index + 1;
    }
    assert index == |bytes|;
    Finish(bytes);
    if index % 16 != 0 {
      text := text + "| " + buffer[..index % 16] + "\n";
    }
    assert text == Dump(bytes);
    out := Some(text);
  }

  /** `memory view 2:1` passes the parser and reaches the dump with `from > to`. */
  lemma ReversedRangeReachesDump(physicalMemoryOffset: nat)
    ensures MemoryCommand(["view", "2:1"], physicalMemoryOffset) == ViewSlice(2, 1, 0)
  {
    assert DigitChar(2) == '2' && DigitChar(1) == '1';
    var range := Numeral(2, 16) + ":" + Numeral(1, 16);
    assert range == "2:1";
    ViewOffsets(2, 1, physicalMemoryOffset);
  }
}
