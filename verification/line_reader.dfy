/** How `BufferedReader.readLine` cuts a text into lines: a line ends at
    "\n", "\r" or "\r\n", the terminator is not part of the line, and a last
    line without terminator still counts when it is non-empty. */
module LineReader {
  import opened Options

  predicate IsBreak(c: char) {
    c == '\r' || c == '\n'
  }

  predicate NoBreaks(s: string) {
    forall k :: 0 <= k < |s| ==> !IsBreak(s[k])
  }

  function FirstBreak(s: string): (r: Option<nat>)
    ensures r.Some? ==> r.value < |s| && IsBreak(s[r.value]) && NoBreaks(s[..r.value])
    ensures r.None? ==> NoBreaks(s)
    decreases |s|
  {
    if |s| == 0 then None
    else if IsBreak(s[0]) then Some(0)
    else
      match FirstBreak(s[1..])
      case None => None
      case Some(i) =>
        assert s[..i + 1] == [s[0]] + s[1..][..i];
        Some(i + 1)
  }

  /** The successive results of `readLine` until it returns null. */
  function ReadLines(text: string): (lines: seq<string>)
    ensures forall k :: 0 <= k < |lines| ==> NoBreaks(lines[k])
    ensures |text| > 0 ==> |lines| > 0
    decreases |text|
  {
    if |text| == 0 then []
    else
      match FirstBreak(text)
      case None => [text]
      case Some(i) =>
        var next := if text[i] == '\r' && i + 1 < |text| && text[i + 1] == '\n' then i + 2 else i + 1;
        [text[..i]] + ReadLines(text[next..])
  }
}
