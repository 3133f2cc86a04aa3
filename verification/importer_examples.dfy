/** The worked examples of the importer's documentation, the edge cases
    that come from `String.split` dropping trailing empty fields, and the
    program's own use of the importer with the "tsv" filter.

    The separator is the one-character string ";" throughout. It is passed
    as a parameter `sep` with `IsSemicolon(sep)` rather than written as the
    literal ";": with a literal separator Dafny evaluates `split` and
    `parseInt` on every literal line by unfolding their definitions, which
    is far more costly than the lemmas used here. For the same reason the
    lines of a file are written `"B" + sep + "1"`, which is the text "B;1";
    single lines whose splitting is the point of the example (`"A;"`,
    `"A;3;"`) are written out in full. */
module ImporterExamples {
  import opened Options
  import opened JavaText
  import opened JavaInt
  import opened Importer
  import opened ImporterProperties
  import opened FileExtensionFilter

  predicate IsSemicolon(sep: string) {
    |sep| == 1 && sep[0] == ';'
  }

  /** ";" is a valid literal separator, and a text without ';' holds no
      occurrence of it, not even one that would begin inside the text and
      run past its end. */
  lemma NoSemicolon(sep: string, s: string)
    requires IsSemicolon(sep) && ';' !in s
    ensures ValidSeparator(sep)
    ensures Free(s, sep) && Free(s + sep[..|sep| - 1], sep)
  {
    FreeOfChar(s, sep);
    assert s + sep[..|sep| - 1] == s;
  }

  /** A single digit is its own value. */
  lemma OneDigit(c: char)
    requires IsDigit(c)
    ensures ParseInt([c]) == Some(c as int - '0' as int)
  {
    assert Magnitude([c]) == [c];
    assert [c][..0] == [];
    assert AllDigits([c]);
    assert DigitsValue([c]) == c as int - '0' as int;
  }

  /** A minus sign and one digit is that digit's negation. */
  lemma NegatedDigit(c: char)
    requires IsDigit(c)
    ensures ParseInt(['-', c]) == Some('0' as int - c as int)
  {
    assert Magnitude(['-', c]) == [c];
    assert [c][..0] == [];
    assert AllDigits([c]);
    assert DigitsValue([c]) == c as int - '0' as int;
  }

  /** Three lines read as the items of each, in line order. */
  lemma ParseThreeLines(a: string, b: string, c: string, sep: string,
                        ya: seq<string>, yb: seq<string>, yc: seq<string>)
    requires ValidSeparator(sep)
    requires ParseLine(a, sep) == ya && ParseLine(b, sep) == yb && ParseLine(c, sep) == yc
    ensures ParseLines([a, b, c], sep) == ya + yb + yc
  {
    ParseLinesCons(c, [], sep);
    assert [c] == [c] + [];
    ParseLinesCons(b, [c], sep);
    assert [b, c] == [b] + [c];
    ParseLinesCons(a, [b, c], sep);
    assert [a, b, c] == [a] + [b, c];
  }

  /** Four lines read as the items of each, in line order. */
  lemma ParseFourLines(a: string, b: string, c: string, d: string, sep: string,
                       ya: seq<string>, yb: seq<string>, yc: seq<string>, yd: seq<string>)
    requires ValidSeparator(sep)
    requires ParseLine(a, sep) == ya && ParseLine(b, sep) == yb
    requires ParseLine(c, sep) == yc && ParseLine(d, sep) == yd
    ensures ParseLines([a, b, c, d], sep) == ya + yb + yc + yd
  {
    ParseThreeLines(b, c, d, sep, yb, yc, yd);
    ParseLinesCons(a, [b, c, d], sep);
    assert [a, b, c, d] == [a] + [b, c, d];
  }

  /** An identifier without ';' is a line of its own. */
  lemma SemicolonFreeLine(id: string, sep: string)
    requires IsSemicolon(sep) && ';' !in id
    ensures ParseLine(id, sep) == [id]
  {
    NoSemicolon(sep, id);
    PlainLine(id, sep);
  }

  /** An identifier without ';' followed by ";" and one digit is the
      identifier that many times. */
  lemma OneDigitLine(id: string, sep: string, c: char)
    requires IsSemicolon(sep) && ';' !in id && IsDigit(c)
    ensures ParseLine(id + sep + [c], sep) == Repeat(id, c as int - '0' as int)
  {
    OneDigit(c);
    NoSemicolon(sep, id);
    NoSemicolon(sep, [c]);
    AnnotatedLine(id, sep, [c], c as int - '0' as int);
  }

  /** One copy and three copies, written out. */
  lemma SmallRepeats(x: string)
    ensures Repeat(x, 1) == [x]
    ensures Repeat(x, 3) == [x, x, x]
  {
  }

  /** Four lines of which the second gives one item and the fourth three
      equal items. */
  lemma DocShape(a: string, b: string, c: string, d: string, sep: string, x: string, y: string)
    requires ValidSeparator(sep)
    requires ParseLine(a, sep) == [a] && ParseLine(b, sep) == [x]
    requires ParseLine(c, sep) == [c] && ParseLine(d, sep) == [y, y, y]
    ensures ParseLines([a, b, c, d], sep) == [a, x, c, y, y, y]
  {
    ParseFourLines(a, b, c, d, sep, [a], [x], [c], [y, y, y]);
    assert [a] + [x] + [c] + [y, y, y] == [a, x, c, y, y, y];
  }

  /** Lines A, B;1, C, D;3 give A, B, C, D, D, D. */
  lemma DocExample(sep: string)
    requires IsSemicolon(sep)
    ensures ParseLines(["A", "B" + sep + "1", "C", "D" + sep + "3"], sep) == ["A", "B", "C", "D", "D", "D"]
  {
    NoSemicolon(sep, "");
    SemicolonFreeLine("A", sep);
    OneDigitLine("B", sep, '1');
    assert "1" == ['1'];
    SmallRepeats("B");
    SemicolonFreeLine("C", sep);
    OneDigitLine("D", sep, '3');
    assert "3" == ['3'];
    SmallRepeats("D");
    DocShape("A", "B" + sep + "1", "C", "D" + sep + "3", sep, "B", "D");
  }

  /** "Forest;abc" gives Forest once, and one warning for line 1 naming the
      token "abc" and the identifier "Forest". */
  lemma ForestExample(sep: string)
    requires IsSemicolon(sep)
    ensures ParseLines(["Forest" + sep + "abc"], sep) == ["Forest"]
    ensures QuantityWarnings(["Forest" + sep + "abc"], sep, 1) == [InvalidQuantity("abc", "Forest", 1)]
  {
    var line := "Forest" + sep + "abc";
    assert ParseInt("abc") == None by {
      assert Magnitude("abc") == "abc";
      assert !IsDigit("abc"[0]);
    }
    NoSemicolon(sep, "Forest");
    NoSemicolon(sep, "abc");
    InvalidQuantityLine("Forest", sep, "abc");
    SplitTwoFields("Forest", sep, "abc");
    ParseLinesCons(line, [], sep);
    assert [line] == [line] + [];
    assert [line][1..] == [];
  }

  /** "A;" is one field once the trailing empty field is dropped, so the
      whole line, separator included, is the identifier. */
  lemma TrailingSeparatorKeepsLine(sep: string)
    requires IsSemicolon(sep)
    ensures ParseLine("A;", sep) == ["A;"]
  {
  }

  /** ";3" has two fields, the first empty: the empty identifier three times. */
  lemma EmptyIdentifier(sep: string)
    requires IsSemicolon(sep)
    ensures ParseLine(";3", sep) == ["", "", ""]
  {
    OneDigit('3');
    NoSemicolon(sep, "");
    NoSemicolon(sep, "3");
    assert ";3" == "" + sep + "3";
    AnnotatedLine("", sep, "3", 3);
    assert Repeat("", 3) == ["", "", ""];
  }

  /** "A;3;" loses its trailing empty field and reads as A with quantity 3. */
  lemma QuantityThenSeparator(sep: string)
    requires IsSemicolon(sep)
    ensures ParseLine("A;3;", sep) == ["A", "A", "A"]
  {
    OneDigit('3');
    NoSemicolon(sep, "A");
    NoSemicolon(sep, "3");
    NoSemicolon(sep, "");
    assert "A;3;" == "A" + sep + ("3" + sep + "");
    RawSplitCons("A", sep, "3" + sep + "");
    RawSplitCons("3", sep, "");
    RawSplitFree("", sep);
    assert RawSplit("A;3;", sep) == ["A", "3", ""];
    assert StripTrailingEmpty(["A", "3", ""]) == ["A", "3"] by {
      assert ["A", "3", ""][..2] == ["A", "3"];
    }
    assert Split("A;3;", sep) == ["A", "3"];
    assert Repeat("A", 3) == ["A", "A", "A"];
  }

  /** "a;b;c" has three fields: the whole line is kept. */
  lemma ThreeFields(sep: string)
    requires IsSemicolon(sep)
    ensures ParseLine("a;b;c", sep) == ["a;b;c"]
  {
    NoSemicolon(sep, "a");
    NoSemicolon(sep, "b");
    NoSemicolon(sep, "c");
    assert "a;b;c" == "a" + sep + ("b" + sep + "c");
    RawSplitCons("a", sep, "b" + sep + "c");
    RawSplitCons("b", sep, "c");
    RawSplitFree("c", sep);
    assert RawSplit("a;b;c", sep) == ["a", "b", "c"];
    assert Split("a;b;c", sep) == ["a", "b", "c"];
  }

  /** "X;-2" parses, and a negative quantity appends nothing. */
  lemma NegativeQuantity(sep: string)
    requires IsSemicolon(sep)
    ensures ParseLine("X;-2", sep) == []
  {
    NegatedDigit('2');
    NoSemicolon(sep, "");
    assert "X;-2" == "X" + sep + "-2";
    NoSemicolon(sep, "X");
    NoSemicolon(sep, "-2");
    AnnotatedLine("X", sep, "-2", -2);
  }

  /** A quantity one above the 32-bit maximum is not a number: the
      identifier is appended once. */
  lemma OverflowingQuantity(sep: string)
    requires IsSemicolon(sep)
    ensures ParseLine("Y" + sep + FormatInt(MaxInt + 1), sep) == ["Y"]
  {
    var q := FormatInt(MaxInt + 1);
    ParseOverflow(MaxInt + 1);
    assert ';' !in q by {
      assert AllDigits(q);
    }
    NoSemicolon(sep, "Y");
    NoSemicolon(sep, q);
    InvalidQuantityLine("Y", sep, q);
  }

  /** When "<dir>/mtg_feeder.dump" is itself a directory, `dump` redirects a
      second time. */
  lemma NestedRedirect()
    ensures DumpTarget("d", ["d", "d/mtg_feeder.dump"], "/") == "d/mtg_feeder.dump/mtg_feeder.dump"
  {
    var dirs := ["d", "d/mtg_feeder.dump"];
    assert FallbackPath("d", "/") == "d/mtg_feeder.dump";
    assert FallbackPath("d/mtg_feeder.dump", "/") == "d/mtg_feeder.dump/mtg_feeder.dump";
    assert "d/mtg_feeder.dump/mtg_feeder.dump" !in dirs by {
      assert |"d/mtg_feeder.dump/mtg_feeder.dump"| != |dirs[0]|;
      assert |"d/mtg_feeder.dump/mtg_feeder.dump"| != |dirs[1]|;
    }
  }

  /** Of "cards.tsv" and "notes.txt", the "tsv" filter accepts only the first. */
  lemma TsvPicksCards()
    ensures Matches(Filter(["tsv"]), "cards.tsv")
    ensures !Matches(Filter(["tsv"]), "notes.txt")
  {
    assert ToLower("cards.tsv") == "cards.tsv";
    assert EndsWith(ToLower("cards.tsv"), Filter(["tsv"]).accepted[0]);
    assert ToLower("notes.txt")[6..] == "txt";
  }

  /** The program reads a directory through `new FileExtensionFilter("tsv")`:
      of "cards.tsv" and "notes.txt" only the first is read. */
  lemma TsvDirectory(open: string -> Source, sep: string)
    requires ValidSeparator(sep)
    ensures ReadDirectory(true, ["cards.tsv", "notes.txt"], n => Matches(Filter(["tsv"]), n), open, sep)
            == ReadFile(open("cards.tsv"), sep)
  {
    var accept := n => Matches(Filter(["tsv"]), n);
    TsvPicksCards();
    ReadDirectorySingle("cards.tsv", accept, open, sep);
    ReadDirectorySingle("notes.txt", accept, open, sep);
    ReadDirectoryAppend(["cards.tsv"], ["notes.txt"], accept, open, sep);
    assert ["cards.tsv", "notes.txt"] == ["cards.tsv"] + ["notes.txt"];
  }
}
