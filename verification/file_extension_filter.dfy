/** `FileExtensionFilter`: accepts a file name when its lower-cased form
    ends with one of the accepted extensions. */
module FileExtensionFilter {
  import opened JavaText

  /** The accepted extensions, in the order the constructor received them. */
  datatype Filter = Filter(accepted: seq<string>)

  /** The constructor: the extensions are copied one by one into a fresh
      list, so the filter keeps them in argument order, duplicates included. */
  method NewFilter(accepted: seq<string>) returns (f: Filter)
    ensures |f.accepted| == |accepted|
    ensures forall i :: 0 <= i < |accepted| ==> f.accepted[i] == accepted[i]
  {
    var list: seq<string> := [];
    var i := 0;
    while i < |accepted|
      invariant 0 <= i <= |accepted|
      invariant list == accepted[..i]
    {
      list := list + [accepted[i]];
      i := i + 1;
    }
    f := Filter(list);
  }

  /** Some accepted extension is a suffix of the lower-cased name. */
  predicate Matches(f: Filter, name: string) {
    exists i :: 0 <= i < |f.accepted| && EndsWith(ToLower(name), f.accepted[i])
  }

  /** `accept(dir, name)`: a linear search for the first extension that is
      a suffix of the lower-cased name. The directory is not consulted. */
  method Accept(f: Filter, dir: string, name: string) returns (accepted: bool)
    ensures accepted <==> Matches(f, name)
    ensures |f.accepted| == 0 ==> !accepted
  {
    var i := 0;
    var lowerCase := ToLower(name);
    while i < |f.accepted| && !EndsWith(lowerCase, f.accepted[i])
      invariant 0 <= i <= |f.accepted|
      invariant forall j :: 0 <= j < i ==> !EndsWith(lowerCase, f.accepted[j])
    {
      i := i + 1;
    }
    accepted := i < |f.accepted|;
  }

  /** An extension containing an upper-case letter never matches: only the
      name is lower-cased. */
  lemma UpperCaseExtensionNeverMatches(name: string, ext: string, p: nat)
    requires p < |ext| && IsUpper(ext[p])
    ensures !EndsWith(ToLower(name), ext)
  {
  }

  /** Case in the name does not matter: a name and its lower-cased form are
      accepted alike. */
  lemma NameCaseIgnored(f: Filter, name: string)
    ensures Matches(f, name) <==> Matches(f, ToLower(name))
  {
  }

  /** Only the set of extensions matters: reordering or repeating them does
      not change any answer. */
  lemma OnlyExtensionSetMatters(f: Filter, g: Filter, name: string)
    requires forall e :: e in f.accepted <==> e in g.accepted
    ensures Matches(f, name) <==> Matches(g, name)
  {
    if Matches(f, name) {
      var i :| 0 <= i < |f.accepted| && EndsWith(ToLower(name), f.accepted[i]);
      assert f.accepted[i] in g.accepted;
    }
    if Matches(g, name) {
      var i :| 0 <= i < |g.accepted| && EndsWith(ToLower(name), g.accepted[i]);
      assert g.accepted[i] in f.accepted;
    }
  }

  /** The program's own filter, `new FileExtensionFilter("tsv")`, accepts
      an upper-case name, and a name without a dot before the extension:
      matching is a suffix test on the lower-cased name. */
  lemma TsvAcceptsLowerCasedSuffix()
    ensures Matches(Filter(["tsv"]), "X.TSV")
    ensures Matches(Filter(["tsv"]), "notatsv")
  {
    assert EndsWith(ToLower("X.TSV"), Filter(["tsv"]).accepted[0]) by {
      assert ToLower("X.TSV") == "x.tsv";
    }
    assert EndsWith(ToLower("notatsv"), Filter(["tsv"]).accepted[0]) by {
      assert ToLower("notatsv") == "notatsv";
    }
  }

  /** A name with another extension is rejected. */
  lemma TsvRejectsCsv()
    ensures !Matches(Filter(["tsv"]), "data.csv")
  {
    assert ToLower("data.csv")[5..] == "csv";
  }

  /** `new FileExtensionFilter("TSV")` accepts nothing, not even "X.TSV". */
  lemma UpperCaseTsvAcceptsNothing(name: string)
    ensures !Matches(Filter(["TSV"]), name)
  {
    UpperCaseExtensionNeverMatches(name, "TSV", 0);
  }
}
