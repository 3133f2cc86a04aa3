# MtGFeeder importer — a Dafny model

MtGFeeder reads lists of card identifiers from text files and can dump
item lists back to disk. This project models its `io` core.

* `Importer.readFile`. Each line is split on a separator. `ID<sep>Q` stands
  for `ID` repeated `Q` times. A bare line stands for one copy of itself.
  A quantity that does not parse falls back to 1 and produces a warning.
* `Importer.readDirectory`. The results of `readFile` are concatenated over
  the entries of a directory that pass a file-name filter.
* `Importer.dump`. Each item is written followed by CR LF. A directory
  target is replaced by `mtg_feeder.dump` inside it. When the file cannot
  be opened, the items go to the error stream instead.
* `FileExtensionFilter`. The constructor stores the accepted extensions.
  `accept` searches for an extension that ends the lower-cased name.

The Java library behaviour these depend on is modelled explicitly:

* `String.split` with a literal separator drops trailing empty fields, and
  returns `[s]` when the separator does not occur (module `JavaText`).
* `Integer.parseInt` accepts an optional sign and decimal digits, and
  rejects values outside 32 bits (module `JavaInt`).
* `BufferedReader.readLine` cuts text into lines (module `LineReader`).
  This is used only to read a dump back.

Files and directories are replaced by values:

* A file is a `Source`: a directory, a missing file, or its lines,
  possibly with a read error after some line.
* A directory listing is a sequence of names, and the filter is a
  predicate on names.
* The file system seen by `dump` is the list of existing directories plus
  the set of paths that cannot be opened for writing.

Modules:

* `Options`
* `JavaText`
* `JavaInt`
* `LineReader`
* `Importer`: the operations.
* `ImporterProperties`: all-inputs lemmas.
* `ImporterExamples`: concrete cases.
* `FileExtensionFilter`

## Model

| member | source | states |
|---|---|---|
| JavaText.Split | MtGFeeder/src/io/Importer.java:55 | `line.split(sep)` for a literal separator: a line without the separator is one field, the line itself; otherwise the last field is never empty, because trailing empty fields are dropped |
| JavaText.SplitFieldsFree | MtGFeeder/src/io/Importer.java:55 | no field returned by the split contains the separator |
| JavaText.SplitRejoins | MtGFeeder/src/io/Importer.java:55 | the fields, with the dropped empty fields restored, joined by the separator, give back the line (splitting loses nothing but trailing separators) |
| JavaText.RawSplitRejoins | MtGFeeder/src/io/Importer.java:55 | splitting at every occurrence, before trailing empties are dropped, is inverted by joining |
| JavaText.SplitTwoFields | MtGFeeder/src/io/Importer.java:55-56 | `id<sep>q` splits into exactly the two fields `id` and `q` when no occurrence of the separator starts inside `id` (for a one-character separator: `id` does not contain it), `q` contains none and `q` is non-empty; a longer separator such as `aa` can otherwise match across the boundary, as in `a` + `aa` + `b` |
| JavaText.FreeOfChar | MtGFeeder/src/io/Importer.java:55 | a one-character separator such as the program's `;` occurs nowhere in a text exactly when its character does not appear in it |
| JavaText.IndexOf | MtGFeeder/src/io/Importer.java:55 | the first occurrence of the separator: the separator occurs there and nowhere before; no result means it occurs nowhere |
| JavaText.ToLower | MtGFeeder/src/io/FileExtensionFilter.java:30 | `name.toLowerCase()` on ASCII: same length, no upper-case letter left, upper-case letters shifted to lower case, every other character kept |
| JavaText.ToLowerIdempotent | MtGFeeder/src/io/FileExtensionFilter.java:30 | lower-casing twice is lower-casing once |
| JavaInt.ParseInt | MtGFeeder/src/io/Importer.java:58-63 | `Integer.parseInt`: any accepted text is a sign followed by at least one digit, or digits alone; the value is 32-bit and its sign agrees with the sign character |
| JavaInt.ParseFormat | MtGFeeder/src/io/Importer.java:59 | every 32-bit integer written in decimal parses back to itself |
| JavaInt.ParsePlusSign | MtGFeeder/src/io/Importer.java:59 | a leading `+` is accepted |
| JavaInt.ParseNumeral | MtGFeeder/src/io/Importer.java:59-60 | every numeral, an optional sign and one or more digits, is accepted exactly when its decimal value, negated after `-`, fits in 32 bits, and then reads as that value; leading zeros included |
| JavaInt.DigitsValueLeadingZero | MtGFeeder/src/io/Importer.java:59 | a leading zero does not change the decimal value of a digit string |
| JavaInt.ParseLeadingZero | MtGFeeder/src/io/Importer.java:59 | leading zeros after any sign are accepted and ignored: `07` reads as 7, `-007` as -7 |
| JavaInt.ParseMinusZero | MtGFeeder/src/io/Importer.java:59 | `-0` reads as 0 |
| JavaInt.ParseOverflow | MtGFeeder/src/io/Importer.java:59-60 | a numeral outside the 32-bit range is rejected, not wrapped around |
| LineReader.ReadLines | MtGFeeder/src/io/Importer.java:53 | the lines `readLine` yields contain no line break, and a non-empty text yields at least one line |
| Importer.LineEntry | MtGFeeder/src/io/Importer.java:55-66 | a line that does not split into exactly two fields is kept whole with quantity 1; with two fields the identifier is the first field and the quantity is what the second field parses to, or 1 when it does not parse; the quantity is always a 32-bit value |
| Importer.ParseLine | MtGFeeder/src/io/Importer.java:55-69 | the items of one line are its identifier and nothing else, as many times as its quantity when that is positive and never otherwise |
| Importer.ParseLines | MtGFeeder/src/io/Importer.java:53-71 | the number of items read is the sum over the lines of their quantities, negative ones counting as zero |
| Importer.ParseLinesAppend | MtGFeeder/src/io/Importer.java:53-71 | reading `a + b` gives the items of `a` followed by the items of `b` |
| Importer.AppendLine | MtGFeeder/src/io/Importer.java:55-69 | the body of the line loop, with its counting loop, appends exactly the items of that line |
| Importer.ReadLinesLoop | MtGFeeder/src/io/Importer.java:53-71 | the line loop, run to the end, builds exactly the concatenation of the lines' items |
| Importer.ReadFile | MtGFeeder/src/io/Importer.java:42-91 | a directory or a missing file gives the empty list; a read error keeps a prefix of the full result; a file read to the end gives the full result |
| Importer.QuantityWarnings | MtGFeeder/src/io/Importer.java:60-70 | at most one warning per line, in file order (line numbers strictly increase), and each warning carries the number of a line of the file |
| Importer.Selected | MtGFeeder/src/io/Importer.java:105 | `directory.list(filter)` lists exactly the entries the filter accepts |
| Importer.ReadAll | MtGFeeder/src/io/Importer.java:105-107 | an item is read from a list of entries exactly when it is read from one of them |
| Importer.ReadDirectory | MtGFeeder/src/io/Importer.java:100-110 | a path that is not a directory gives nothing; otherwise an item comes back exactly when some accepted entry yields it |
| Importer.DumpTarget | MtGFeeder/src/io/Importer.java:122-125 | the file finally written is never a directory; a non-directory path is used as given; a directory whose `mtg_feeder.dump` is not a directory is redirected to that file; the target always begins with the path it was given (taken as already absolute and normalised); the fallback inside a directory is `FallbackPath`, the directory, the file separator and `mtg_feeder.dump` |
| Importer.Serialise | MtGFeeder/src/io/Importer.java:129-131 | the dump text is empty exactly when there are no items, and otherwise ends with CR LF |
| Importer.Dump | MtGFeeder/src/io/Importer.java:121-152 | the target is the one `DumpTarget` chooses; the file is written exactly when the target can be opened, and what is written is every item followed by CR LF; otherwise the items go to the error stream unchanged |
| ImporterProperties.PlainLine | MtGFeeder/src/io/Importer.java:55-69 | a line without the separator yields one item, the line itself |
| ImporterProperties.AnnotatedLine | MtGFeeder/src/io/Importer.java:56-69 | when no occurrence of the separator starts inside `id` (for a one-character separator: `id` does not contain it) and `q` contains none, `id<sep>q` with `q` parsing as `n` yields `id` exactly `n` times, and nothing when `n <= 0`; a line with a third field, such as `a;b;3`, is kept whole instead |
| ImporterProperties.InvalidQuantityLine | MtGFeeder/src/io/Importer.java:57-62 | when no occurrence of the separator starts inside `id` (for a one-character separator: `id` does not contain it), `q` contains none and `q` is non-empty, `id<sep>q` with a quantity that does not parse yields `id` once, not the whole line, and draws a warning; with `q` empty, as in `A;`, the trailing empty field is dropped and the whole line is kept |
| ImporterProperties.TwoFieldLine | MtGFeeder/src/io/Importer.java:56-69 | any line that splits into exactly two fields, trailing separators included, yields the first field as many times as the second parses to, or once when it does not parse |
| ImporterProperties.FormattedQuantityLine | MtGFeeder/src/io/Importer.java:56-69 | when no occurrence of the separator starts inside `id` (for a one-character separator: `id` does not contain it) and the decimal text of the 32-bit quantity `n` contains no separator, `id<sep>n` yields `id` exactly `n` times: a quantity written in decimal is read back as that many copies |
| ImporterProperties.ParseLinesCons | MtGFeeder/src/io/Importer.java:53-71 | the first line's items come before those of the remaining lines |
| ImporterProperties.UnannotatedLines | MtGFeeder/src/io/Importer.java:53-71 | lines without the separator come back verbatim, one item each, in order |
| ImporterProperties.LineBlock | MtGFeeder/src/io/Importer.java:53-71 | line `k`'s items form one block, after the items of all earlier lines and before those of all later lines |
| ImporterProperties.ItemPosition | MtGFeeder/src/io/Importer.java:53-71 | item `j` of line `k`'s block sits at position (items of lines before `k`) + `j`, and is line `k`'s identifier |
| ImporterProperties.WarningSource | MtGFeeder/src/io/Importer.java:53-71 | every warning comes from a line with two fields whose quantity does not parse, and names that line |
| ImporterProperties.WarningIssued | MtGFeeder/src/io/Importer.java:53-71 | every such line draws its warning |
| ImporterProperties.WarningsOf | MtGFeeder/src/io/Importer.java:53-71 | the warnings are exactly the messages of the lines with an invalid quantity |
| ImporterProperties.WarningForLine | MtGFeeder/src/io/Importer.java:51-70 | with lines numbered from 1, line `n` draws a warning exactly when its quantity is invalid, and the warning names the quantity token and the identifier |
| ImporterProperties.SelectedAppend | MtGFeeder/src/io/Importer.java:105 | filtering keeps listing order |
| ImporterProperties.ReadAllAppend | MtGFeeder/src/io/Importer.java:105-107 | entries are read in listing order |
| ImporterProperties.ReadDirectoryAppend | MtGFeeder/src/io/Importer.java:100-110 | a listing `a + b` yields the items of `a`'s entries followed by those of `b`'s |
| ImporterProperties.ReadDirectorySingle | MtGFeeder/src/io/Importer.java:105-107 | an accepted entry contributes exactly its `readFile` result, and a rejected one contributes nothing |
| ImporterProperties.NoAcceptedEntries | MtGFeeder/src/io/Importer.java:105-107 | a directory in which no entry is accepted yields nothing |
| ImporterProperties.DumpToDirectory | MtGFeeder/src/io/Importer.java:122-124 | dumping to a directory writes `<dir><separator>mtg_feeder.dump` when that is not itself a directory, and that target is not redirected again |
| ImporterProperties.SerialiseAppend | MtGFeeder/src/io/Importer.java:129-131 | the dump text of `a + b` is that of `a` followed by that of `b` |
| ImporterProperties.ReadLinesSerialise | MtGFeeder/src/io/Importer.java:129-131 | reading the dump text line by line gives back the items, when none contains a line break |
| ImporterProperties.DumpRoundTrip | MtGFeeder/src/io/Importer.java:121-131 | a written dump, read back by `readFile` with a separator that occurs in no item, gives the dumped list with order and multiplicity |
| ImporterExamples.DocExample | MtGFeeder/src/io/Importer.java:24-32 | lines `A`, `B;1`, `C`, `D;3` give `A, B, C, D, D, D` |
| ImporterExamples.ForestExample | MtGFeeder/src/io/Importer.java:56-62 | `Forest;abc` gives `Forest` once and one warning naming `abc`, `Forest` and line 1 |
| ImporterExamples.TrailingSeparatorKeepsLine | MtGFeeder/src/io/Importer.java:55-66 | `A;` is one field, so the whole line `A;` is the item |
| ImporterExamples.EmptyIdentifier | MtGFeeder/src/io/Importer.java:55-69 | `;3` yields the empty identifier three times |
| ImporterExamples.QuantityThenSeparator | MtGFeeder/src/io/Importer.java:55-69 | `A;3;` yields `A` three times |
| ImporterExamples.ThreeFields | MtGFeeder/src/io/Importer.java:55-66 | `a;b;c` is kept whole |
| ImporterExamples.NegativeQuantity | MtGFeeder/src/io/Importer.java:59-69 | `X;-2` yields nothing |
| ImporterExamples.OverflowingQuantity | MtGFeeder/src/io/Importer.java:59-62 | a quantity one above the 32-bit maximum falls back to 1 |
| ImporterExamples.NestedRedirect | MtGFeeder/src/io/Importer.java:122-124 | when `d/mtg_feeder.dump` is itself a directory, `dump("d")` writes `d/mtg_feeder.dump/mtg_feeder.dump` |
| ImporterExamples.TsvPicksCards | MtGFeeder/src/io/FileExtensionFilter.java:28-35 | the filter for `tsv` accepts `cards.tsv` and rejects `notes.txt` |
| ImporterExamples.TsvDirectory | MtGFeeder/src/io/Importer.java:100-107 | with `new FileExtensionFilter("tsv")`, of `cards.tsv` and `notes.txt` only the first is read |
| FileExtensionFilter.NewFilter | MtGFeeder/src/io/FileExtensionFilter.java:20-25 | the filter keeps the given extensions in argument order, duplicates included |
| FileExtensionFilter.Accept | MtGFeeder/src/io/FileExtensionFilter.java:28-35 | `accept` is true exactly when some accepted extension ends the lower-cased name; the directory argument plays no part; with no extensions it is always false; the suffix test is `EndsWith`, `String.endsWith` |
| FileExtensionFilter.UpperCaseExtensionNeverMatches | MtGFeeder/src/io/FileExtensionFilter.java:30-31 | an extension with an upper-case letter never matches, since only the name is lower-cased |
| FileExtensionFilter.NameCaseIgnored | MtGFeeder/src/io/FileExtensionFilter.java:30-31 | a name and its lower-cased form are accepted alike |
| FileExtensionFilter.OnlyExtensionSetMatters | MtGFeeder/src/io/FileExtensionFilter.java:20-34 | reordering or repeating the extensions changes no answer |
| FileExtensionFilter.TsvAcceptsLowerCasedSuffix | MtGFeeder/src/io/FileExtensionFilter.java:30-31 | the filter for `tsv` accepts `X.TSV` (the name is lower-cased first) and `notatsv` (a plain suffix test, no dot needed) |
| FileExtensionFilter.TsvRejectsCsv | MtGFeeder/src/io/FileExtensionFilter.java:31-34 | the filter for `tsv` rejects `data.csv` |
| FileExtensionFilter.UpperCaseTsvAcceptsNothing | MtGFeeder/src/io/FileExtensionFilter.java:30-34 | the filter for `TSV` accepts no name at all |

## Left out

- File I/O is not modelled. This covers opening, reading, writing, flushing and closing, and the `isDirectory` checks. They appear as the `Source` values, the directory list and the unwritable set.
- Messages on the error stream are not modelled, except the invalid-quantity warning and the lines `dump` prints when the file cannot be opened. The messages for a directory, a missing file, a read error and a close error are left out. So are the stack traces.
- Importer.ReadFile: an `IOException` in the middle of a file is modelled as "the lines before the failing `readLine`". Only this prefix property is stated.
- The UTF-8 re-decoding of each line is treated as the identity. It depends on the platform's default charset.
- JavaText.Split: only literal separators are modelled: non-empty, with no regular-expression metacharacter. `;` and tab both qualify. General regular-expression splitting is left out.
- JavaText.ToLower: lower-cases ASCII letters only. Java's Unicode and locale rules are left out.
- JavaInt.ParseInt: accepts ASCII digits only. Java also accepts other Unicode decimal digits.
- Importer.Dump: failures to write one line are left out. That includes continuing with the next line and failure of `flush`. The model either writes the whole text or falls back to the error stream.
- Importer.ReadDirectory: entry names reach `open` as listed. The code builds `new File(name)` at line 106, which resolves the name against the working directory, not the listed directory. `directory.list` returning `null` is left out too.
- Importer.DumpTarget: the redirect happens once only when `<dir>/mtg_feeder.dump` is not itself a directory. If it is one, the code redirects again, as `ImporterExamples.NestedRedirect` shows. So "at most once" is stated under that condition.
- Importer.DumpTarget: paths are taken as already absolute and normalised. The code builds the fallback from `file.getAbsolutePath()`, so for a relative directory `d` it writes `<working directory>/d/mtg_feeder.dump`, and `new File` drops a trailing separator. The model appends to the path as given.
- Negative quantities: the code appends nothing for a quantity of zero or less, because the counting loop does not run. The model follows the code and does not treat negative quantities as errors.
- `main` is left out: it uses hard-coded paths. The `network` package (`RequestSender`) is not part of this model.
