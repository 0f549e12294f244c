/**
 * Model of the main loop of scripts/bw-to-ar.py: the 57 header lines are copied
 * as they are, then every data line is split on tabs, loses the parentheses
 * around its location (field 0), has its surface form (field 1) translated in
 * full and the attribute spans of its feature field (field 3) translated, and is
 * joined again with tabs. Lines carry their own line terminator, as Python's
 * file iteration gives them; the output file's content is the concatenation of
 * the written lines.
 */
module BwToAr {
  import opened Wrappers
  import opened PyStr
  import opened Buckwalter
  import opened FeatureSpans

  /** The copyright block at the top of the corpus: `lines[:57]`. */
  const HeaderLines: nat := 57

  /** A data line whose `parts[field]` does not exist: Python raises IndexError there. */
  datatype LineFailure = MissingField(line: nat, field: nat)

  /**
   * One data line, as the loop body transforms it, or the index of the field
   * whose read raised (1 when there is no tab, 3 when there are one or two).
   */
  function TransformLine(line: string): (r: Result<string, nat>)
    ensures r.Failure? <==> |Split(line, '\t')| < 4
    ensures r.Failure? ==> r.error == 1 || r.error == 3
  {
    var parts := Split(line, '\t');
    if |parts| < 2 then Failure(1)
    else if |parts| < 4 then Failure(3)
    else Success(Join(parts[0 := StripEnds(parts[0])][1 := Translate(parts[1])][3 := TranslateSpans(Tr, parts[3])], '\t'))
  }

  /**
   * A well-formed data line keeps its number of tab-separated fields: field 0 loses
   * its first and last character, field 1 is translated character by character,
   * field 2 and every field after field 3 are unchanged, and field 3 is translated
   * exactly at its attribute spans.
   */
  lemma TransformLineFields(line: string)
    requires |Split(line, '\t')| >= 4
    ensures var parts := Split(line, '\t');
            var out := Split(TransformLine(line).value, '\t');
            && |out| == |parts|
            && out[0] == StripEnds(parts[0])
            && out[1] == Translate(parts[1])
            && out[2] == parts[2]
            && out[3] == TranslateSpans(Tr, parts[3])
            && (forall k :: 4 <= k < |parts| ==> out[k] == parts[k])
  {
    var parts := Split(line, '\t');
    var p0 := StripEnds(parts[0]);
    assert |parts[0]| >= 2 ==> parts[0] == [parts[0][0]] + p0 + [parts[0][|parts[0]| - 1]];
    assert '\t' !in p0;
    TranslateKeepsDelimiters(parts[1], '\t');
    SpansKeepDelimiter(parts[3], '\t');
    var newParts := parts[0 := p0][1 := Translate(parts[1])][3 := TranslateSpans(Tr, parts[3])];
    SplitJoin(newParts, '\t');
  }

  /** The span translation of field 3 keeps every delimiter where it was and adds none. */
  lemma SpansKeepDelimiter(s: string, d: char)
    requires d == '\t' || d == '\n' || d == '|'
    ensures forall i :: 0 <= i < |s| ==> (TranslateSpans(Tr, s)[i] == d <==> s[i] == d)
    ensures d in TranslateSpans(Tr, s) <==> d in s
  {
    var r := TranslateSpans(Tr, s);
    forall i | 0 <= i < |s| ensures r[i] == d <==> s[i] == d {
      TrDelimiter(s[i], d);
    }
  }

  /**
   * The script's loop. On success every line was written: the header verbatim and
   * one transformed line per data line, in order. On failure the lines written
   * before the first malformed data line are all there is, and the failure names
   * that line and the field whose read raised.
   */
  method Convert(lines: seq<string>) returns (written: seq<string>, failure: Option<LineFailure>)
    ensures |lines| <= HeaderLines ==> written == lines && failure == None
    ensures |lines| > HeaderLines ==> |written| >= HeaderLines && written[..HeaderLines] == lines[..HeaderLines]
    ensures failure.None? ==>
              |written| == |lines| &&
              forall i :: HeaderLines <= i < |lines| ==> TransformLine(lines[i]) == Success(written[i])
    ensures failure.Some? ==>
              var n := failure.value.line;
              && HeaderLines <= n < |lines|
              && |written| == n
              && (forall i :: HeaderLines <= i < n ==> TransformLine(lines[i]) == Success(written[i]))
              && TransformLine(lines[n]) == Failure(failure.value.field)
  {
    var header := if |lines| < HeaderLines then |lines| else HeaderLines;
    written := lines[..header];
    failure := None;
    var i := header;
    while i < |lines|
      invariant header <= i <= |lines|
      invariant |written| == i
      invariant written[..header] == lines[..header]
      invariant forall j :: HeaderLines <= j < i ==> TransformLine(lines[j]) == Success(written[j])
    {
      var parts := Split(lines[i], '\t');
      parts := parts[0 := StripEnds(parts[0])];
      if |parts| < 2 {
        failure := Some(MissingField(i, 1));
        return;
      }
      parts := parts[1 := Translate(parts[1])];
      if |parts| < 4 {
        failure := Some(MissingField(i, 3));
        return;
      }
      parts := parts[3 := TranslateSpans(Tr, parts[3])];
      written := written + [Join(parts, '\t')];
      i := i + 1;
    }
  }
}
