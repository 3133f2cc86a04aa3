/** The importer: reading weighted item lists from files and directories,
    and dumping an item list back to a file.

    File-system access is replaced by values: a file is a `Source` (a
    directory, a missing file, or the lines it yields), a directory listing
    is a sequence of entry names, and the set of existing directories is a
    sequence of paths. */
module Importer {
  import opened Options
  import opened JavaText
  import opened JavaInt
  import opened LineReader

  /** File name used when `dump` is pointed at a directory. */
  const DummyDumpName: string := "mtg_feeder.dump"

  /** Terminator written after every dumped line, whatever the platform. */
  const LineTerminator: string := "\r\n"

  // ---------------------------------------------------------------------
  // readFile: one line
  // ---------------------------------------------------------------------

  /** What one input line contributes: an identifier and the number of
      times the append loop runs for it. */
  datatype Entry = Entry(id: string, quantity: int)

  /** Exactly two fields: identifier and quantity, the quantity defaulting to
      1 when it does not parse. Any other field count: the whole line,
      quantity 1. */
  function LineEntry(line: string, sep: string): (e: Entry)
    requires ValidSeparator(sep)
    ensures IsInt32(e.quantity)
    ensures |Split(line, sep)| != 2 ==> e == Entry(line, 1)
    ensures |Split(line, sep)| == 2 ==> e.id == Split(line, sep)[0]
    ensures |Split(line, sep)| == 2 && ParseInt(Split(line, sep)[1]).Some? ==>
              e.quantity == ParseInt(Split(line, sep)[1]).value
    ensures |Split(line, sep)| == 2 && ParseInt(Split(line, sep)[1]).None? ==> e.quantity == 1
  {
    var tokens := Split(line, sep);
    if |tokens| == 2 then
      match ParseInt(tokens[1])
      case Some(n) => Entry(tokens[0], n)
      case None => Entry(tokens[0], 1)
    else
      Entry(line, 1)
  }

  /** `x` appended `n` times; a count of zero or less appends nothing. */
  function Repeat(x: string, n: int): (r: seq<string>)
    ensures |r| == Max0(n)
    ensures forall k :: 0 <= k < |r| ==> r[k] == x
  {
    seq(Max0(n), _ => x)
  }

  /** The items one line adds to the result of `readFile`: its identifier,
      as many times as its quantity says. */
  function ParseLine(line: string, sep: string): (items: seq<string>)
    requires ValidSeparator(sep)
    ensures |items| == Max0(LineEntry(line, sep).quantity)
    ensures forall k :: 0 <= k < |items| ==> items[k] == LineEntry(line, sep).id
  {
    var e := LineEntry(line, sep);
    Repeat(e.id, e.quantity)
  }

  /** A count below zero counts as zero. */
  function Max0(n: int): nat {
    if n <= 0 then 0 else n
  }

  // ---------------------------------------------------------------------
  // readFile: all lines
  // ---------------------------------------------------------------------

  /** Number of items the lines expand to: the sum of their non-negative
      quantities. */
  function TotalQuantity(lines: seq<string>, sep: string): nat
    requires ValidSeparator(sep)
    decreases |lines|
  {
    if |lines| == 0 then 0
    else Max0(LineEntry(lines[0], sep).quantity) + TotalQuantity(lines[1..], sep)
  }

  /** The expansions of the lines, concatenated in line order. */
  function ParseLines(lines: seq<string>, sep: string): (items: seq<string>)
    requires ValidSeparator(sep)
    ensures |items| == TotalQuantity(lines, sep)
    decreases |lines|
  {
    if |lines| == 0 then [] else ParseLine(lines[0], sep) + ParseLines(lines[1..], sep)
  }

  /** Parsing distributes over concatenation of the input. */
  lemma {:induction false} ParseLinesAppend(a: seq<string>, b: seq<string>, sep: string)
    requires ValidSeparator(sep)
    ensures ParseLines(a + b, sep) == ParseLines(a, sep) + ParseLines(b, sep)
    decreases |a|
  {
    if |a| > 0 {
      assert (a + b)[1..] == a[1..] + b;
      ParseLinesAppend(a[1..], b, sep);
    } else {
      assert a + b == b;
    }
  }

  /** The body of the `readFile` loop for one line: the identifier and
      quantity are chosen, then the identifier is appended while the counter
      is below the quantity. */
  method AppendLine(input: seq<string>, line: string, sep: string) returns (output: seq<string>)
    requires ValidSeparator(sep)
    ensures output == input + ParseLine(line, sep)
  {
    var id := line;
    var quantity := 1;
    var tokens := Split(line, sep);
    if |tokens| == 2 {
      id := tokens[0];
      match ParseInt(tokens[1]) {
        case Some(n) => quantity := n;
        case None => quantity := 1;
      }
    }
    assert Entry(id, quantity) == LineEntry(line, sep);
    output := input;
    var i := 0;
    while i < quantity
      invariant 0 <= i <= Max0(quantity)
      invariant output == input + Repeat(id, i)
    {
      output := output + [id];
      i := i + 1;
    }
    assert Repeat(id, i) == Repeat(id, quantity);
  }

  /** The line loop of `readFile`, over the lines already read. */
  method ReadLinesLoop(lines: seq<string>, sep: string) returns (input: seq<string>)
    requires ValidSeparator(sep)
    ensures input == ParseLines(lines, sep)
  {
    input := [];
    var k := 0;
    while k < |lines|
      invariant 0 <= k <= |lines|
      invariant input == ParseLines(lines[..k], sep)
    {
      input := AppendLine(input, lines[k], sep);
      ParseLinesAppend(lines[..k], [lines[k]], sep);
      assert lines[..k + 1] == lines[..k] + [lines[k]];
      k := k + 1;
    }
    assert lines[..|lines|] == lines;
  }

  /** What opening a path yields. A `Readable` source that fails after
      `k` lines throws from `readLine` once `k` lines have been read. */
  datatype Source =
    | Directory
    | Missing
    | Readable(lines: seq<string>, failsAfter: Option<nat>)

  function LinesRead(lines: seq<string>, failsAfter: Option<nat>): (n: nat)
    ensures n <= |lines|
  {
    match failsAfter
    case None => |lines|
    case Some(k) => if k < |lines| then k else |lines|
  }

  /** `readFile`: a directory or a missing file gives the empty list; a
      read error mid-stream keeps what was read before it. */
  function ReadFile(src: Source, sep: string): (items: seq<string>)
    requires ValidSeparator(sep)
    ensures !src.Readable? ==> items == []
    ensures src.Readable? ==> items <= ParseLines(src.lines, sep)
    ensures src.Readable? && src.failsAfter.None? ==> items == ParseLines(src.lines, sep)
  {
    match src
    case Directory => []
    case Missing => []
    case Readable(lines, failsAfter) =>
      var n := LinesRead(lines, failsAfter);
      assert lines == lines[..n] + lines[n..];
      ParseLinesAppend(lines[..n], lines[n..], sep);
      ParseLines(lines[..n], sep)
  }

  /** The "Invalid quantity" message of `readFile`: the token, the
      identifier it belongs to, and the 1-based line number. */
  datatype Warning = InvalidQuantity(token: string, id: string, lineNumber: nat)

  /** Whether the line has two fields whose second does not parse. */
  predicate HasInvalidQuantity(line: string, sep: string)
    requires ValidSeparator(sep)
  {
    var tokens := Split(line, sep);
    |tokens| == 2 && ParseInt(tokens[1]).None?
  }

  /** The message for an invalid quantity on line number `n`. */
  function WarningFor(line: string, sep: string, n: nat): (w: Warning)
    requires ValidSeparator(sep) && HasInvalidQuantity(line, sep)
    ensures w.lineNumber == n
  {
    var tokens := Split(line, sep);
    InvalidQuantity(tokens[1], tokens[0], n)
  }

  /** The invalid-quantity messages for `lines`, numbering lines from
      `firstLine`. */
  function QuantityWarnings(lines: seq<string>, sep: string, firstLine: nat): (ws: seq<Warning>)
    requires ValidSeparator(sep)
    ensures |ws| <= |lines|
    ensures forall k :: 0 <= k < |ws| ==> firstLine <= ws[k].lineNumber < firstLine + |lines|
    ensures forall i, j :: 0 <= i < j < |ws| ==> ws[i].lineNumber < ws[j].lineNumber
    decreases |lines|
  {
    if |lines| == 0 then []
    else
      var rest := QuantityWarnings(lines[1..], sep, firstLine + 1);
      if HasInvalidQuantity(lines[0], sep) then [WarningFor(lines[0], sep, firstLine)] + rest
      else rest
  }

  // ---------------------------------------------------------------------
  // readDirectory
  // ---------------------------------------------------------------------

  /** `directory.list(filter)`: the entry names the filter accepts, in
      listing order. */
  function Selected(names: seq<string>, accept: string -> bool): (r: seq<string>)
    ensures |r| <= |names|
    ensures forall n :: n in r <==> n in names && accept(n)
    decreases |names|
  {
    if |names| == 0 then []
    else if accept(names[0]) then [names[0]] + Selected(names[1..], accept)
    else Selected(names[1..], accept)
  }

  /** `readFile` of every name, concatenated in order. */
  function ReadAll(names: seq<string>, open: string -> Source, sep: string): (items: seq<string>)
    requires ValidSeparator(sep)
    ensures forall x :: x in items <==> exists n :: n in names && x in ReadFile(open(n), sep)
    decreases |names|
  {
    if |names| == 0 then []
    else
      assert forall n :: n in names <==> n == names[0] || n in names[1..];
      ReadFile(open(names[0]), sep) + ReadAll(names[1..], open, sep)
  }

  /** `readDirectory`: nothing unless the path is a directory; otherwise
      the items of every accepted entry, entry by entry in listing order. */
  function ReadDirectory(isDirectory: bool, names: seq<string>, accept: string -> bool,
                         open: string -> Source, sep: string): (items: seq<string>)
    requires ValidSeparator(sep)
    ensures !isDirectory ==> items == []
    ensures isDirectory ==> forall x :: x in items <==>
              exists n :: n in names && accept(n) && x in ReadFile(open(n), sep)
  {
    if !isDirectory then []
    else
      ReadAll(Selected(names, accept), open, sep)
  }

  // ---------------------------------------------------------------------
  // dump
  // ---------------------------------------------------------------------

  /** The file `dump` falls back to inside directory `dir`. */
  function FallbackPath(dir: string, fileSep: string): string {
    dir + fileSep + DummyDumpName
  }

  function MaxLength(paths: seq<string>): (m: nat)
    ensures forall k :: 0 <= k < |paths| ==> |paths[k]| <= m
    decreases |paths|
  {
    if |paths| == 0 then 0
    else
      var rest := MaxLength(paths[1..]);
      if |paths[0]| > rest then |paths[0]| else rest
  }

  /** The file `dump` finally writes: while the path names one of the
      existing directories `dirs`, it is replaced by the fallback file inside
      it. */
  function DumpTarget(path: string, dirs: seq<string>, fileSep: string): (target: string)
    ensures target !in dirs
    ensures path !in dirs ==> target == path
    ensures path in dirs && FallbackPath(path, fileSep) !in dirs ==> target == FallbackPath(path, fileSep)
    ensures path <= target
    decreases if path in dirs then MaxLength(dirs) + 1 - |path| else 0
  {
    if path in dirs then
      var next := FallbackPath(path, fileSep);
      assert path <= next;
      DumpTarget(next, dirs, fileSep)
    else
      path
  }

  /** The text `dump` writes: every line followed by CR LF, in list order. */
  function Serialise(lines: seq<string>): (text: string)
    ensures |lines| == 0 <==> text == []
    ensures |lines| > 0 ==> EndsWith(text, LineTerminator)
    decreases |lines|
  {
    if |lines| == 0 then [] else lines[0] + LineTerminator + Serialise(lines[1..])
  }

  /** The directories that exist and the files that cannot be opened for
      writing. */
  datatype FileSystem = FileSystem(dirs: seq<string>, unwritable: set<string>)

  /** Where the dumped lines end up: in the target file, or, when it cannot
      be opened, on the error stream line by line. */
  datatype DumpOutcome =
    | WroteFile(target: string, content: string)
    | DumpedToErrorStream(target: string, lines: seq<string>)

  /** `dump`. */
  function Dump(path: string, fs: FileSystem, fileSep: string, lines: seq<string>): (out: DumpOutcome)
    ensures out.target !in fs.dirs
    ensures path !in fs.dirs ==> out.target == path
    ensures path in fs.dirs && FallbackPath(path, fileSep) !in fs.dirs ==>
              out.target == FallbackPath(path, fileSep)
    ensures out.WroteFile? <==> out.target !in fs.unwritable
    ensures out.DumpedToErrorStream? ==> out.lines == lines
    ensures out.WroteFile? ==> out.content == Serialise(lines)
    ensures out.target == DumpTarget(path, fs.dirs, fileSep)
  {
    var target := DumpTarget(path, fs.dirs, fileSep);
    if target in fs.unwritable then DumpedToErrorStream(target, lines)
    else WroteFile(target, Serialise(lines))
  }
}
