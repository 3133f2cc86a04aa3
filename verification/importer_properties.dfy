/** Properties of the importer model that relate several calls or hold for
    all inputs of a given shape. */
module ImporterProperties {
  import opened Options
  import opened JavaText
  import opened JavaInt
  import opened LineReader
  import opened Importer

  // ---------------------------------------------------------------------
  // One line
  // ---------------------------------------------------------------------

  /** A line in which the separator does not occur is one item: the line
      itself. */
  lemma PlainLine(line: string, sep: string)
    requires ValidSeparator(sep) && Free(line, sep)
    ensures ParseLine(line, sep) == [line]
  {
  }

  /** `ID<sep>Q` with a quantity `Q` that parses as `n` gives `ID` exactly
      `n` times (nothing when `n <= 0`). */
  lemma AnnotatedLine(id: string, sep: string, q: string, n: int)
    requires ValidSeparator(sep)
    requires Free(id + sep[..|sep| - 1], sep) && Free(q, sep)
    requires ParseInt(q) == Some(n)
    ensures ParseLine(id + sep + q, sep) == Repeat(id, n)
  {
    SplitTwoFields(id, sep, q);
  }

  /** `ID<sep>Q` with a non-empty quantity that does not parse gives `ID`
      once, not the whole line. */
  lemma InvalidQuantityLine(id: string, sep: string, q: string)
    requires ValidSeparator(sep)
    requires Free(id + sep[..|sep| - 1], sep) && Free(q, sep) && q != ""
    requires ParseInt(q) == None
    ensures ParseLine(id + sep + q, sep) == [id]
    ensures HasInvalidQuantity(id + sep + q, sep)
  {
    SplitTwoFields(id, sep, q);
  }

  /** Any line that splits into exactly two fields, trailing separators
      included (`A;3;` splits as `A`, `3`): the first field, as many times as
      the second parses to, or once when it does not parse. */
  lemma TwoFieldLine(line: string, sep: string)
    requires ValidSeparator(sep) && |Split(line, sep)| == 2
    ensures ParseInt(Split(line, sep)[1]).Some? ==>
              ParseLine(line, sep) == Repeat(Split(line, sep)[0], ParseInt(Split(line, sep)[1]).value)
    ensures ParseInt(Split(line, sep)[1]).None? ==> ParseLine(line, sep) == [Split(line, sep)[0]]
  {
  }

  /** A decimal quantity written by `Integer.toString` is read back. */
  lemma FormattedQuantityLine(id: string, sep: string, n: int)
    requires ValidSeparator(sep) && IsInt32(n)
    requires Free(id + sep[..|sep| - 1], sep) && Free(FormatInt(n), sep)
    ensures ParseLine(id + sep + FormatInt(n), sep) == Repeat(id, n)
  {
    ParseFormat(n);
    AnnotatedLine(id, sep, FormatInt(n), n);
  }

  // ---------------------------------------------------------------------
  // All lines
  // ---------------------------------------------------------------------

  /** The first line's items come first. */
  lemma ParseLinesCons(line: string, rest: seq<string>, sep: string)
    requires ValidSeparator(sep)
    ensures ParseLines([line] + rest, sep) == ParseLine(line, sep) + ParseLines(rest, sep)
  {
  }

  /** Lines without separator come back verbatim, one item per line, in
      order. */
  lemma {:induction false} UnannotatedLines(lines: seq<string>, sep: string)
    requires ValidSeparator(sep)
    requires forall k :: 0 <= k < |lines| ==> Free(lines[k], sep)
    ensures ParseLines(lines, sep) == lines
    decreases |lines|
  {
    if |lines| > 0 {
      UnannotatedLines(lines[1..], sep);
      assert lines == [lines[0]] + lines[1..];
    }
  }

  /** The items of line `k` sit, as one block, after the items of all
      earlier lines and before those of all later lines. */
  lemma LineBlock(lines: seq<string>, sep: string, k: nat)
    requires ValidSeparator(sep) && k < |lines|
    ensures ParseLines(lines, sep) ==
            ParseLines(lines[..k], sep) + ParseLine(lines[k], sep) + ParseLines(lines[k + 1..], sep)
    ensures |ParseLines(lines[..k], sep)| == TotalQuantity(lines[..k], sep)
  {
    var before, after := lines[..k], lines[k + 1..];
    var tail := [lines[k]] + after;
    assert lines == before + tail;
    ParseLinesAppend(before, tail, sep);
    assert tail[1..] == after;
    assert ParseLines(tail, sep) == ParseLine(lines[k], sep) + ParseLines(after, sep);
  }

  /** Item `j` of line `k`'s block is that line's identifier, at offset
      `TotalQuantity(lines[..k]) + j` of the result. */
  lemma ItemPosition(lines: seq<string>, sep: string, k: nat, j: nat)
    requires ValidSeparator(sep) && k < |lines|
    requires j < Max0(LineEntry(lines[k], sep).quantity)
    ensures TotalQuantity(lines[..k], sep) + j < |ParseLines(lines, sep)|
    ensures ParseLines(lines, sep)[TotalQuantity(lines[..k], sep) + j] == LineEntry(lines[k], sep).id
  {
    LineBlock(lines, sep, k);
  }

  /** Line `k` of `lines`, numbered from `firstLine`, has an invalid
      quantity and `w` is its message. */
  predicate WarnsAbout(lines: seq<string>, sep: string, firstLine: nat, k: nat, w: Warning)
    requires ValidSeparator(sep)
  {
    k < |lines| && HasInvalidQuantity(lines[k], sep) && w == WarningFor(lines[k], sep, firstLine + k)
  }

  /** Every message comes from some line with an invalid quantity. */
  lemma {:induction false} WarningSource(lines: seq<string>, sep: string, firstLine: nat, w: Warning) returns (k: nat)
    requires ValidSeparator(sep) && w in QuantityWarnings(lines, sep, firstLine)
    ensures WarnsAbout(lines, sep, firstLine, k, w)
    decreases |lines|
  {
    var tail := lines[1..];
    if HasInvalidQuantity(lines[0], sep) && w == WarningFor(lines[0], sep, firstLine) {
      k := 0;
    } else {
      var j := WarningSource(tail, sep, firstLine + 1, w);
      assert tail[j] == lines[j + 1];
      k := j + 1;
    }
  }

  /** Every line with an invalid quantity has its message. */
  lemma {:induction false} WarningIssued(lines: seq<string>, sep: string, firstLine: nat, k: nat, w: Warning)
    requires ValidSeparator(sep) && WarnsAbout(lines, sep, firstLine, k, w)
    ensures w in QuantityWarnings(lines, sep, firstLine)
    decreases k
  {
    if k > 0 {
      var tail := lines[1..];
      assert tail[k - 1] == lines[k];
      WarningIssued(tail, sep, firstLine + 1, k - 1, w);
    }
  }

  /** The messages are exactly those of the lines with an invalid quantity. */
  lemma WarningsOf(lines: seq<string>, sep: string, firstLine: nat, w: Warning)
    requires ValidSeparator(sep)
    ensures w in QuantityWarnings(lines, sep, firstLine) <==> exists k: nat :: WarnsAbout(lines, sep, firstLine, k, w)
  {
    if w in QuantityWarnings(lines, sep, firstLine) {
      var k := WarningSource(lines, sep, firstLine, w);
    }
    forall k: nat | WarnsAbout(lines, sep, firstLine, k, w)
      ensures w in QuantityWarnings(lines, sep, firstLine)
    {
      WarningIssued(lines, sep, firstLine, k, w);
    }
  }

  /** `readFile` numbers lines from 1: there is a warning for line `n`
      exactly when line `n` has two fields and its quantity does not parse,
      and it names the quantity token and the identifier. */
  lemma WarningForLine(lines: seq<string>, sep: string, n: nat)
    requires ValidSeparator(sep) && 1 <= n <= |lines|
    ensures HasInvalidQuantity(lines[n - 1], sep) <==>
              exists w :: w in QuantityWarnings(lines, sep, 1) && w.lineNumber == n
    ensures HasInvalidQuantity(lines[n - 1], sep) ==>
              InvalidQuantity(Split(lines[n - 1], sep)[1], Split(lines[n - 1], sep)[0], n)
                in QuantityWarnings(lines, sep, 1)
  {
    var ws := QuantityWarnings(lines, sep, 1);
    if HasInvalidQuantity(lines[n - 1], sep) {
      var w := WarningFor(lines[n - 1], sep, n);
      assert WarnsAbout(lines, sep, 1, n - 1, w);
      WarningsOf(lines, sep, 1, w);
      assert w in ws && w.lineNumber == n;
    }
    if exists w :: w in ws && w.lineNumber == n {
      var w :| w in ws && w.lineNumber == n;
      WarningsOf(lines, sep, 1, w);
      var k: nat :| WarnsAbout(lines, sep, 1, k, w);
    }
  }

  // ---------------------------------------------------------------------
  // readDirectory
  // ---------------------------------------------------------------------

  lemma {:induction false} SelectedAppend(a: seq<string>, b: seq<string>, accept: string -> bool)
    ensures Selected(a + b, accept) == Selected(a, accept) + Selected(b, accept)
    decreases |a|
  {
    if |a| > 0 {
      assert (a + b)[1..] == a[1..] + b;
      SelectedAppend(a[1..], b, accept);
    } else {
      assert a + b == b;
    }
  }

  lemma {:induction false} ReadAllAppend(a: seq<string>, b: seq<string>, open: string -> Source, sep: string)
    requires ValidSeparator(sep)
    ensures ReadAll(a + b, open, sep) == ReadAll(a, open, sep) + ReadAll(b, open, sep)
    decreases |a|
  {
    if |a| > 0 {
      assert (a + b)[1..] == a[1..] + b;
      ReadAllAppend(a[1..], b, open, sep);
    } else {
      assert a + b == b;
    }
  }

  /** Listing order is kept: the entries of a listing `a + b` give the
      items of `a`'s entries followed by those of `b`'s. */
  lemma ReadDirectoryAppend(a: seq<string>, b: seq<string>, accept: string -> bool,
                            open: string -> Source, sep: string)
    requires ValidSeparator(sep)
    ensures ReadDirectory(true, a + b, accept, open, sep) ==
            ReadDirectory(true, a, accept, open, sep) + ReadDirectory(true, b, accept, open, sep)
  {
    SelectedAppend(a, b, accept);
    ReadAllAppend(Selected(a, accept), Selected(b, accept), open, sep);
  }

  /** One accepted entry contributes exactly its `readFile` result; a
      rejected one contributes nothing. */
  lemma ReadDirectorySingle(name: string, accept: string -> bool, open: string -> Source, sep: string)
    requires ValidSeparator(sep)
    ensures accept(name) ==> ReadDirectory(true, [name], accept, open, sep) == ReadFile(open(name), sep)
    ensures !accept(name) ==> ReadDirectory(true, [name], accept, open, sep) == []
  {
    if accept(name) {
      assert Selected([name], accept) == [name];
      assert ReadAll([name], open, sep) == ReadFile(open(name), sep) + ReadAll([], open, sep);
    } else {
      assert Selected([name], accept) == [];
    }
  }

  /** A directory with no accepted entry yields nothing. */
  lemma NoAcceptedEntries(names: seq<string>, accept: string -> bool, open: string -> Source, sep: string)
    requires ValidSeparator(sep)
    requires forall k :: 0 <= k < |names| ==> !accept(names[k])
    ensures ReadDirectory(true, names, accept, open, sep) == []
  {
  }

  // ---------------------------------------------------------------------
  // dump
  // ---------------------------------------------------------------------

  /** A directory target is redirected to `<dir><sep>mtg_feeder.dump`; the
      redirection happens once when that name is not itself a directory. */
  lemma DumpToDirectory(dir: string, fs: FileSystem, fileSep: string, lines: seq<string>)
    requires dir in fs.dirs && FallbackPath(dir, fileSep) !in fs.dirs
    ensures Dump(dir, fs, fileSep, lines).target == dir + fileSep + "mtg_feeder.dump"
    ensures DumpTarget(Dump(dir, fs, fileSep, lines).target, fs.dirs, fileSep) == Dump(dir, fs, fileSep, lines).target
  {
  }

  lemma {:induction false} SerialiseAppend(a: seq<string>, b: seq<string>)
    ensures Serialise(a + b) == Serialise(a) + Serialise(b)
    decreases |a|
  {
    if |a| > 0 {
      assert (a + b)[1..] == a[1..] + b;
      SerialiseAppend(a[1..], b);
    } else {
      assert a + b == b;
    }
  }

  /** Reading the dump text line by line gives back the dumped lines,
      provided none of them contains a line break. */
  lemma {:induction false} ReadLinesSerialise(lines: seq<string>)
    requires forall k :: 0 <= k < |lines| ==> NoBreaks(lines[k])
    ensures ReadLines(Serialise(lines)) == lines
    decreases |lines|
  {
    if |lines| > 0 {
      var first := lines[0];
      var rest := Serialise(lines[1..]);
      var text := Serialise(lines);
      assert text == first + "\r\n" + rest;
      assert text[|first|] == '\r' && text[|first| + 1] == '\n';
      assert NoBreaks(text[..|first|]) by {
        assert text[..|first|] == first;
      }
      match FirstBreak(text)
      case None =>
        assert false;
      case Some(i) =>
        assert i == |first|;
        assert text[i + 2..] == rest;
        assert text[..i] == first;
        ReadLinesSerialise(lines[1..]);
        assert lines == [first] + lines[1..];
    }
  }

  /** Dumping and reading back: the file `dump` writes, read with a
      separator that occurs in no item, yields the dumped list, order and
      multiplicity included. */
  lemma DumpRoundTrip(path: string, fs: FileSystem, fileSep: string, lines: seq<string>, sep: string)
    requires ValidSeparator(sep)
    requires forall k :: 0 <= k < |lines| ==> NoBreaks(lines[k]) && Free(lines[k], sep)
    ensures Dump(path, fs, fileSep, lines).WroteFile? ==>
              ReadFile(Readable(ReadLines(Dump(path, fs, fileSep, lines).content), None), sep) == lines
  {
    if Dump(path, fs, fileSep, lines).WroteFile? {
      ReadLinesSerialise(lines);
      UnannotatedLines(lines, sep);
    }
  }
}
