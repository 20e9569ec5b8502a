/** The decisions of the console renderer (`display_system_info` and its
    helpers): the colour bands for usage, GPU temperature and process
    memory, the fill of a progress bar, the free-memory subtraction and the
    shortening of long process names. Writing to the terminal is not
    modelled; only the values that would be written are. */
module Display {
  import opened Wrappers
  import opened RustInt
  import Processes

  datatype Color = Green | Yellow | Red

  /** Where the source would panic instead of producing a value. */
  datatype Panic = SubtractionOverflow | CapacityOverflow | SliceNotOnCharBoundary

  /** Green < Yellow < Red. */
  function Severity(c: Color): (level: nat) {
    match c
    case Green => 0
    case Yellow => 1
    case Red => 2
  }

  // ---------------------------------------------------------------------
  // Colour bands
  // ---------------------------------------------------------------------

  /** `get_usage_color(percentage)`, with the `f32` read as a real. */
  function UsageColor(percentage: real): (c: Color)
    ensures c == Green <==> percentage < 50.0
    ensures c == Yellow <==> 50.0 <= percentage < 75.0
    ensures c == Red <==> 75.0 <= percentage
  {
    if percentage < 50.0 then Green
    else if percentage < 75.0 then Yellow
    else Red
  }

  /** A higher usage never gets a milder colour. */
  lemma UsageColorMonotone(p: real, q: real)
    requires p <= q
    ensures Severity(UsageColor(p)) <= Severity(UsageColor(q))
  {
  }

  /** The colour of the GPU temperature in whole degrees Celsius. */
  function TemperatureColor(celsius: u32): (c: Color)
    ensures c == Green <==> celsius < 70
    ensures c == Yellow <==> 70 <= celsius <= 84
    ensures c == Red <==> 85 <= celsius
  {
    if celsius < 70 then Green
    else if celsius < 85 then Yellow
    else Red
  }

  lemma TemperatureColorMonotone(a: u32, b: u32)
    requires a <= b
    ensures Severity(TemperatureColor(a)) <= Severity(TemperatureColor(b))
  {
  }

  const BytesPerMb: nat := 1024 * 1024

  /** The colour of a process's memory: the byte count is converted to
      megabytes (`bytes_to_mb`, read exactly) and compared with 500 and 200. */
  function MemoryColor(bytes: u64): (c: Color)
    ensures c == Red <==> bytes > 500 * BytesPerMb
    ensures c == Yellow <==> 200 * BytesPerMb < bytes <= 500 * BytesPerMb
    ensures c == Green <==> bytes <= 200 * BytesPerMb
  {
    var mb := (bytes as real) / (BytesPerMb as real);
    if mb > 500.0 then Red
    else if mb > 200.0 then Yellow
    else Green
  }

  lemma MemoryColorMonotone(a: u64, b: u64)
    requires a <= b
    ensures Severity(MemoryColor(a)) <= Severity(MemoryColor(b))
  {
  }

  // ---------------------------------------------------------------------
  // Progress bar
  // ---------------------------------------------------------------------

  /** Rust's `as usize` on a float that is not NaN: truncation toward zero,
      saturating at both ends of the `usize` range. */
  function SaturatingToUsize(x: real): (n: usize)
    ensures x <= 0.0 ==> n == 0
    ensures 0.0 <= x < (USIZE_MAX + 1) as real ==> n as real <= x < (n + 1) as real
    ensures x >= (USIZE_MAX + 1) as real ==> n == USIZE_MAX
  {
    if x <= 0.0 then 0
    else if x >= (USIZE_MAX + 1) as real then USIZE_MAX
    else x.Floor
  }

  /** The cells of a bar: `filled` solid cells in the usage colour, then `empty` dim ones. */
  datatype Bar = Bar(filled: nat, empty: nat, color: Color)

  const FilledCell: char := '\U{2588}'
  const EmptyCell: char := '\U{2591}'

  /** `str::repeat(n)` of a one-character string allocates `n` times its
      UTF-8 length and panics on capacity overflow past `isize::MAX` bytes. */
  predicate RepeatFits(cell: char, n: nat) {
    Utf8Len(cell) * n <= ISIZE_MAX
  }

  /** The widest bar both cell kinds can always be repeated for. */
  const MaxBarWidth: nat := ISIZE_MAX / 3

  /** `((percentage / 100.0) * width as f32) as usize`: the whole part of
      `percentage` percent of `width`, saturated to the `usize` range. */
  function FilledCells(percentage: real, width: usize): (n: usize)
    ensures percentage * (width as real) <= 0.0 ==> n == 0
    ensures 0.0 <= percentage * (width as real) < 100.0 * ((USIZE_MAX + 1) as real) ==>
      100.0 * (n as real) <= percentage * (width as real) < 100.0 * ((n + 1) as real)
    ensures percentage * (width as real) >= 100.0 * ((USIZE_MAX + 1) as real) ==> n == USIZE_MAX
  {
    var cells := (percentage / 100.0) * (width as real);
    assert 100.0 * cells == percentage * (width as real);
    SaturatingToUsize(cells)
  }

  /** `draw_progress_bar(percentage, width)`: `filled` solid cells then
      `width - filled` dim ones. The subtraction overflows when `filled` is
      more than `width`. That panics in every build: with overflow checks
      the subtraction panics, and without them it wraps to a huge `empty`
      whose `str::repeat` panics on capacity overflow. Without the
      subtraction overflow, `str::repeat` still panics when either count
      needs more than `isize::MAX` bytes. */
  function DrawProgressBar(percentage: real, width: usize): (r: Result<Bar, Panic>)
    ensures r.Success? ==> r.value.filled + r.value.empty == width
    ensures r.Success? ==> r.value.filled == FilledCells(percentage, width)
    ensures r.Success? ==> r.value.color == UsageColor(percentage)
    ensures r.Success? ==> RepeatFits(FilledCell, r.value.filled) && RepeatFits(EmptyCell, r.value.empty)
    ensures r == Failure(SubtractionOverflow) <==>
      width < USIZE_MAX && percentage * (width as real) >= 100.0 * ((width + 1) as real)
    ensures r == Failure(CapacityOverflow) <==>
      var filled := FilledCells(percentage, width);
      filled <= width && !(RepeatFits(FilledCell, filled) && RepeatFits(EmptyCell, width - filled))
    ensures r.Failure? ==> r.error != SliceNotOnCharBoundary
    ensures r == Failure(CapacityOverflow) ==> width > MaxBarWidth
    ensures r.Success? && percentage >= 0.0 && width < USIZE_MAX ==>
      100.0 * (r.value.filled as real) <= percentage * (width as real)
      < 100.0 * ((r.value.filled + 1) as real)
  {
    var filled := FilledCells(percentage, width);
    if filled > width then Failure(SubtractionOverflow)
    else if !(RepeatFits(FilledCell, filled) && RepeatFits(EmptyCell, width - filled)) then Failure(CapacityOverflow)
    else
      assert percentage >= 0.0 ==> percentage * (width as real) >= 0.0 by {
        if percentage >= 0.0 { MulNonNegative(percentage, width as real); }
      }
      Success(Bar(filled, width - filled, UsageColor(percentage)))
  }

  /** A percentage from 0 to 100 never overflows the subtraction, and it
      draws a bar whenever the width is one `str::repeat` can allocate. */
  lemma ProgressBarInRange(percentage: real, width: usize)
    requires 0.0 <= percentage <= 100.0
    ensures DrawProgressBar(percentage, width) != Failure(SubtractionOverflow)
    ensures width <= MaxBarWidth ==> DrawProgressBar(percentage, width).Success?
  {
    MulNonNegative(100.0 - percentage, width as real);
    assert percentage * (width as real) <= 100.0 * (width as real);
  }

  lemma MulNonNegative(a: real, b: real)
    requires a >= 0.0 && b >= 0.0
    ensures a * b >= 0.0
  {
  }

  lemma SaturatingToUsizeMonotone(x: real, y: real)
    requires x <= y
    ensures SaturatingToUsize(x) <= SaturatingToUsize(y)
  {
  }

  /** A larger percentage fills at least as many cells. */
  lemma ProgressBarMonotone(p: real, q: real, width: usize)
    requires p <= q
    requires DrawProgressBar(p, width).Success? && DrawProgressBar(q, width).Success?
    ensures DrawProgressBar(p, width).value.filled <= DrawProgressBar(q, width).value.filled
  {
    FilledCellsMonotone(p, q, width);
  }

  lemma FilledCellsMonotone(p: real, q: real, width: usize)
    requires p <= q
    ensures FilledCells(p, width) <= FilledCells(q, width)
  {
    var x, y := (p / 100.0) * (width as real), (q / 100.0) * (width as real);
    MulNonNegative(q / 100.0 - p / 100.0, width as real);
    assert x <= y;
    SaturatingToUsizeMonotone(x, y);
  }

  /** The full and the empty bar, and the overflow just past the last cell. */
  lemma ProgressBarExamples()
    ensures DrawProgressBar(100.0, 60) == Success(Bar(60, 0, Red))
    ensures DrawProgressBar(0.0, 60) == Success(Bar(0, 60, Green))
    ensures DrawProgressBar(50.0, 60) == Success(Bar(30, 30, Yellow))
    ensures DrawProgressBar(101.0, 60) == Success(Bar(60, 0, Red))
    ensures DrawProgressBar(102.0, 60) == Failure(SubtractionOverflow)
  {
    assert FilledCells(100.0, 60) == 60 && FilledCells(0.0, 60) == 0 && FilledCells(50.0, 60) == 30;
    assert FilledCells(101.0, 60) == 60 && FilledCells(102.0, 60) == 61;
  }

  /** At the widest `usize` the full and the empty bar both ask
      `str::repeat` for more than `isize::MAX` bytes. */
  lemma ProgressBarCapacityExamples()
    ensures DrawProgressBar(100.0, USIZE_MAX) == Failure(CapacityOverflow)
    ensures DrawProgressBar(0.0, USIZE_MAX) == Failure(CapacityOverflow)
  {
    assert FilledCells(100.0, USIZE_MAX) == USIZE_MAX;
    assert FilledCells(0.0, USIZE_MAX) == 0;
  }

  // ---------------------------------------------------------------------
  // Free memory
  // ---------------------------------------------------------------------

  /** `total_mem - used_mem` on `u64`: with overflow checks (a debug build)
      a larger `used` panics; without them (a release build) it wraps. */
  function FreeMemory(total: u64, used: u64, overflowChecks: bool): (r: Result<u64, Panic>)
    ensures r.Failure? <==> overflowChecks && used > total
    ensures r.Success? ==> (r.value + used) % (U64_MAX + 1) == total
  {
    if used <= total then Success(total - used)
    else if overflowChecks then Failure(SubtractionOverflow)
    else Success(total + (U64_MAX + 1) - used)
  }

  /** Without a panic or wrap the free memory is exactly what is not used. */
  lemma FreeMemoryExact(total: u64, used: u64, overflowChecks: bool)
    requires used <= total
    ensures FreeMemory(total, used, overflowChecks) == Success(total - used)
    ensures FreeMemory(total, used, overflowChecks).value <= total
  {
  }

  // ---------------------------------------------------------------------
  // Process names
  // ---------------------------------------------------------------------

  /** The number of bytes of `c` in UTF-8. */
  function Utf8Len(c: char): (bytes: nat) {
    if c as int < 0x80 then 1
    else if c as int < 0x800 then 2
    else if c as int < 0x1_0000 then 3
    else 4
  }

  /** `String::len`: the length in UTF-8 bytes. */
  function ByteLen(s: string): (n: nat)
    ensures n >= |s|
  {
    if |s| == 0 then 0 else Utf8Len(s[0]) + ByteLen(s[1..])
  }

  /** The number of characters that take up exactly `b` bytes at the start
      of `s`, if byte offset `b` falls on a character boundary. */
  function CharsForBytes(s: string, b: nat): (k: Option<nat>)
    ensures k.Some? ==> k.value <= |s| && ByteLen(s[..k.value]) == b
    ensures k.None? ==> forall j :: 0 <= j <= |s| ==> ByteLen(s[..j]) != b
  {
    if b == 0 then Some(0)
    else if |s| == 0 || Utf8Len(s[0]) > b then None
    else
      match CharsForBytes(s[1..], b - Utf8Len(s[0]))
      case Some(k) =>
        assert s[..k + 1][1..] == s[1..][..k];
        Some(k + 1)
      case None =>
        assert forall j :: 1 <= j <= |s| ==> s[..j][1..] == s[1..][..j - 1];
        None
  }

  predicate IsAscii(s: string) {
    forall i :: 0 <= i < |s| ==> s[i] as int < 0x80
  }

  lemma {:induction false} AsciiByteLen(s: string)
    requires IsAscii(s)
    ensures ByteLen(s) == |s|
  {
    if |s| > 0 {
      AsciiByteLen(s[1..]);
    }
  }

  const NameWidth: nat := 28
  const KeptChars: nat := 27
  const Ellipsis: string := "..."

  /** The name column as the source computes it: `name.len()` counts bytes
      and `&name[..27]` slices bytes, which panics when byte 27 falls inside
      a multi-byte character. */
  function TruncateNameAsWritten(name: string): (r: Result<string, Panic>)
    ensures ByteLen(name) <= NameWidth ==> r == Success(name)
    ensures r.Failure? <==>
      ByteLen(name) > NameWidth && forall j :: 0 <= j <= |name| ==> ByteLen(name[..j]) != KeptChars
    ensures r.Success? && ByteLen(name) > NameWidth ==>
      ByteLen(r.value) == KeptChars + 3 && r.value[|r.value| - 3..] == Ellipsis
    ensures r.Success? && ByteLen(name) > NameWidth ==>
      exists k :: 0 <= k <= |name| && ByteLen(name[..k]) == KeptChars && r.value == name[..k] + Ellipsis
  {
    if ByteLen(name) > NameWidth then
      match CharsForBytes(name, KeptChars)
      case Some(k) =>
        ByteLenAppend(name[..k], Ellipsis);
        assert ByteLen(Ellipsis) == 3;
        Success(name[..k] + Ellipsis)
      case None => Failure(SliceNotOnCharBoundary)
    else Success(name)
  }

  lemma {:induction false} ByteLenAppend(a: string, b: string)
    ensures ByteLen(a + b) == ByteLen(a) + ByteLen(b)
  {
    if |a| > 0 {
      assert (a + b)[1..] == a[1..] + b;
      ByteLenAppend(a[1..], b);
    } else {
      assert a + b == b;
    }
  }

  /** The name column as evidently intended: names of more than 28
      characters become their first 27 characters and "..."; shorter ones
      are shown as they are. It never panics. */
  function DisplayName(name: string): (shown: string)
    ensures |shown| <= NameWidth + 2
    ensures |name| <= NameWidth ==> shown == name
    ensures |name| > NameWidth ==> |shown| == NameWidth + 2
    ensures |name| > NameWidth ==> shown[..KeptChars] == name[..KeptChars] && shown[KeptChars..] == Ellipsis
  {
    if |name| > NameWidth then name[..KeptChars] + Ellipsis else name
  }

  /** A shortened name is not shortened again. */
  lemma DisplayNameIdempotent(name: string)
    ensures DisplayName(DisplayName(name)) == DisplayName(name)
  {
    if |name| > NameWidth {
      var shown := DisplayName(name);
      assert shown[..KeptChars] + Ellipsis == shown;
    }
  }

  /** A name longer than 30 characters is always changed. */
  lemma DisplayNameShortens(name: string)
    requires |name| > NameWidth + 2
    ensures DisplayName(name) != name && |DisplayName(name)| < |name|
  {
  }

  /** On ASCII names, where bytes and characters coincide, the source and
      the intended behaviour agree. */
  lemma AsWrittenAgreesOnAscii(name: string)
    requires IsAscii(name)
    ensures TruncateNameAsWritten(name) == Success(DisplayName(name))
  {
    AsciiByteLen(name);
    if |name| > NameWidth {
      assert IsAscii(name[..KeptChars]);
      AsciiByteLen(name[..KeptChars]);
      var k := CharsForBytes(name, KeptChars);
      assert k.Some?;
      var j := k.value;
      assert IsAscii(name[..j]);
      AsciiByteLen(name[..j]);
    }
  }

  /** Any name of more than 28 bytes whose 27th byte is not the end of a
      character makes the source panic: 26 ASCII characters followed by a
      two-byte character put byte 27 inside that character. */
  lemma TruncationPanicsInsideChar(name: string)
    requires |name| >= 28
    requires IsAscii(name[..26]) && Utf8Len(name[26]) == 2
    ensures ByteLen(name) > NameWidth
    ensures TruncateNameAsWritten(name) == Failure(SliceNotOnCharBoundary)
  {
    AsciiByteLen(name[..26]);
    assert name == name[..26] + name[26..];
    ByteLenAppend(name[..26], name[26..]);
    assert ByteLen(name[26..]) == 2 + ByteLen(name[27..]) by {
      assert name[26..][1..] == name[27..];
    }
    assert ByteLen(name[27..]) >= 1 by {
      assert |name[27..]| >= 1;
    }
    forall j | 0 <= j <= |name| ensures ByteLen(name[..j]) != KeptChars {
      if j <= 26 {
        assert IsAscii(name[..j]) by {
          assert forall i :: 0 <= i < j ==> name[..j][i] == name[..26][i];
        }
        AsciiByteLen(name[..j]);
      } else {
        assert name[..j] == name[..26] + name[26..j];
        ByteLenAppend(name[..26], name[26..j]);
        assert name[26..j][0] == name[26];
        assert ByteLen(name[26..j]) >= 2;
      }
    }
  }

  /** A concrete process name that crashes the renderer: 26 letters 'a',
      then 'é' (two bytes) and 'b'. It is 28 characters long, so the
      intended rule shows it unchanged. */
  lemma TruncationPanicExample(name: string)
    requires |name| == 28 && name[26] == 'é' && name[27] == 'b'
    requires forall i :: 0 <= i < 26 ==> name[i] == 'a'
    ensures ByteLen(name) == 29
    ensures TruncateNameAsWritten(name) == Failure(SliceNotOnCharBoundary)
    ensures DisplayName(name) == name
  {
    assert IsAscii(name[..26]);
    TruncationPanicsInsideChar(name);
    assert name == name[..26] + name[26..];
    AsciiByteLen(name[..26]);
    ByteLenAppend(name[..26], name[26..]);
    assert name[26..][1..] == name[27..];
    assert name[27..][1..] == [];
    assert Utf8Len(name[26]) == 2 && Utf8Len(name[27]) == 1;
    assert ByteLen(name[27..]) == 1;
    assert ByteLen(name[26..]) == 3;
  }

  // ---------------------------------------------------------------------
  // The process table
  // ---------------------------------------------------------------------

  /** How many processes the console lists. */
  const TopProcessCount: nat := 15

  /** One line of the process table. */
  datatype ProcessRow = ProcessRow(pid: nat, name: string, memoryColor: Color)

  function Row(p: Processes.ProcessInfo): (row: ProcessRow) {
    ProcessRow(p.pid, DisplayName(p.name), MemoryColor(p.memory))
  }

  /** The rows of the "TOP 15 PROCESSES BY MEMORY" table, with the name
      column as evidently intended (`DisplayName`): row `i` shows the
      `i`-th process of the top list. */
  function ProcessTable(procs: seq<Processes.ProcessInfo>): (rows: seq<ProcessRow>)
    ensures |rows| == Processes.Min(TopProcessCount, |procs|)
    ensures forall i :: 0 <= i < |rows| ==> |rows[i].name| <= NameWidth + 2
    ensures var top := Processes.TopProcesses(procs, TopProcessCount);
      forall i :: 0 <= i < |rows| ==>
        && rows[i].pid == top[i].pid
        && rows[i].name == DisplayName(top[i].name)
        && rows[i].memoryColor == MemoryColor(top[i].memory)
  {
    Rows(Processes.TopProcesses(procs, TopProcessCount))
  }

  function Rows(top: seq<Processes.ProcessInfo>): (rows: seq<ProcessRow>) {
    seq(|top|, i requires 0 <= i < |top| => Row(top[i]))
  }

  /** The rows as the source prints them, with the byte-based name column:
      the first name that panics ends the table. */
  function RowsAsWritten(top: seq<Processes.ProcessInfo>): (r: Result<seq<ProcessRow>, Panic>)
    ensures r.Failure? <==> exists i :: 0 <= i < |top| && TruncateNameAsWritten(top[i].name).Failure?
    ensures r.Success? ==> |r.value| == |top| && forall i :: 0 <= i < |top| ==>
      && TruncateNameAsWritten(top[i].name).Success?
      && r.value[i] == ProcessRow(top[i].pid, TruncateNameAsWritten(top[i].name).value, MemoryColor(top[i].memory))
  {
    if |top| == 0 then Success([])
    else
      match TruncateNameAsWritten(top[0].name)
      case Failure(e) => Failure(e)
      case Success(shown) =>
        match RowsAsWritten(top[1..])
        case Failure(e) =>
          var i :| 0 <= i < |top[1..]| && TruncateNameAsWritten(top[1..][i].name).Failure?;
          assert top[1..][i] == top[i + 1];
          Failure(e)
        case Success(rest) =>
          assert forall i :: 1 <= i < |top| ==> top[1..][i - 1] == top[i];
          Success([ProcessRow(top[0].pid, shown, MemoryColor(top[0].memory))] + rest)
  }

  /** The table as the source prints it, over the same top list. */
  function ProcessTableAsWritten(procs: seq<Processes.ProcessInfo>): (r: Result<seq<ProcessRow>, Panic>)
    ensures var top := Processes.TopProcesses(procs, TopProcessCount);
      && (r.Failure? <==> exists i :: 0 <= i < |top| && TruncateNameAsWritten(top[i].name).Failure?)
      && (r.Success? ==> |r.value| == |top| && forall i :: 0 <= i < |top| ==>
            && r.value[i].pid == top[i].pid
            && Success(r.value[i].name) == TruncateNameAsWritten(top[i].name)
            && r.value[i].memoryColor == MemoryColor(top[i].memory))
  {
    RowsAsWritten(Processes.TopProcesses(procs, TopProcessCount))
  }

  /** When every process name is ASCII, the table as written and the
      corrected table are the same. */
  lemma TableAgreesOnAsciiNames(procs: seq<Processes.ProcessInfo>)
    requires forall p :: p in procs ==> IsAscii(p.name)
    ensures ProcessTableAsWritten(procs) == Success(ProcessTable(procs))
  {
    var top := Processes.TopProcesses(procs, TopProcessCount);
    forall i | 0 <= i < |top|
      ensures TruncateNameAsWritten(top[i].name) == Success(DisplayName(top[i].name))
    {
      assert top[i] in multiset(top);
      assert top[i] in procs;
      AsWrittenAgreesOnAscii(top[i].name);
    }
    RowsAgree(top);
  }

  /** Where every name of the list truncates without a panic to its
      intended column, the rows as written are the intended rows. */
  lemma {:induction false} RowsAgree(top: seq<Processes.ProcessInfo>)
    requires forall i :: 0 <= i < |top| ==> TruncateNameAsWritten(top[i].name) == Success(DisplayName(top[i].name))
    ensures RowsAsWritten(top) == Success(Rows(top))
  {
    if |top| > 0 {
      var tail := top[1..];
      assert forall i :: 0 <= i < |tail| ==> tail[i] == top[i + 1];
      RowsAgree(tail);
      assert Rows(top) == [Row(top[0])] + Rows(tail);
      assert TruncateNameAsWritten(top[0].name) == Success(DisplayName(top[0].name));
    }
  }

  /** One process whose name puts byte 27 inside a character is enough to
      make the source's table panic. */
  lemma TablePanicsOnSplitName(procs: seq<Processes.ProcessInfo>, i: nat)
    requires i < |Processes.TopProcesses(procs, TopProcessCount)|
    requires var name := Processes.TopProcesses(procs, TopProcessCount)[i].name;
      |name| >= 28 && IsAscii(name[..26]) && Utf8Len(name[26]) == 2
    ensures ProcessTableAsWritten(procs).Failure?
  {
    TruncationPanicsInsideChar(Processes.TopProcesses(procs, TopProcessCount)[i].name);
  }

  /** Down the table the memory colour never gets more severe. */
  lemma ProcessTableColorsDescend(procs: seq<Processes.ProcessInfo>)
    ensures var rows := ProcessTable(procs);
      forall i, j :: 0 <= i < j < |rows| ==> Severity(rows[i].memoryColor) >= Severity(rows[j].memoryColor)
  {
    var top := Processes.TopProcesses(procs, TopProcessCount);
    var rows := ProcessTable(procs);
    forall i, j | 0 <= i < j < |rows|
      ensures Severity(rows[i].memoryColor) >= Severity(rows[j].memoryColor)
    {
      MemoryColorMonotone(top[j].memory, top[i].memory);
    }
  }
}
