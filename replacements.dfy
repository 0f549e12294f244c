/**
 * The replacement callables of scripts/apply-changes.py, with the match groups
 * the regular expression captured passed as parameters: `split_dem`, which splits
 * a demonstrative with a distance and an addressee suffix into records of their
 * own; the lambda that splits the attention prefix `هَٰ` off a demonstrative; and
 * the lambda that turns a Roman-numeral verb form into `VF:n`. A callable that
 * raises (a missing dictionary key, a numeral not in the list) gives None.
 */
module Replacements {
  import opened Wrappers
  import opened PyStr

  // ---------------------------------------------------------------------------
  // Records
  // ---------------------------------------------------------------------------

  /**
   * `tpl % (loc, n, text, tag, feature)` without its leading newline: a record of
   * four tab-separated fields, the location `loc` followed by part index `n`, the
   * surface form `text`, the tag and the single suffix segment `feature`.
   */
  function Record(loc: string, n: nat, text: string, tag: string, feature: string): string
  {
    Join([loc + NatToString(n), text, tag, "SUFFIX|+" + feature], '\t')
  }

  /** A record's four tab-separated fields are exactly the values put into it. */
  lemma RecordFields(loc: string, n: nat, text: string, tag: string, feature: string)
    requires '\t' !in loc && '\t' !in text && '\t' !in tag && '\t' !in feature
    ensures Split(Record(loc, n, text, tag, feature), '\t') ==
              [loc + NatToString(n), text, tag, "SUFFIX|+" + feature]
  {
    var fields := [loc + NatToString(n), text, tag, "SUFFIX|+" + feature];
    assert '\t' !in NatToString(n);
    assert '\t' !in fields[3];
    SplitJoin(fields, '\t');
  }

  /** A record has no line break when none of its values has one. */
  lemma RecordLine(loc: string, n: nat, text: string, tag: string, feature: string)
    requires '\n' !in loc && '\n' !in text && '\n' !in tag && '\n' !in feature
    ensures '\n' !in Record(loc, n, text, tag, feature)
  {
    assert '\n' !in NatToString(n);
    JoinFree([loc + NatToString(n), text, tag, "SUFFIX|+" + feature], '\t', '\n');
  }

  /**
   * `line` reads as a new record: four tab-separated fields, the first being `loc`
   * followed by a decimal part index that `int` reads as `n`.
   */
  predicate NewRecord(line: string, loc: string, n: nat, text: string, tag: string, feature: string)
  {
    var fields := Split(line, '\t');
    && |fields| == 4
    && StartsWith(fields[0], loc)
    && AllDigits(fields[0][|loc|..])
    && ParseNat(fields[0][|loc|..]) == n
    && fields[1] == text
    && fields[2] == tag
    && fields[3] == "SUFFIX|+" + feature
  }

  /** Reading a written record back gives the values it was written from. */
  lemma RecordReadsBack(loc: string, n: nat, text: string, tag: string, feature: string)
    requires '\t' !in loc && '\t' !in text && '\t' !in tag && '\t' !in feature
    ensures NewRecord(Record(loc, n, text, tag, feature), loc, n, text, tag, feature)
  {
    RecordFields(loc, n, text, tag, feature);
    assert (loc + NatToString(n))[|loc|..] == NatToString(n);
    assert (loc + NatToString(n))[..|loc|] == loc;
    ParseNatToString(n);
  }

  /**
   * The fields of a line made of a tab-free location, a tab-led `field` with no other
   * tab, and `tail`: the location, `field` without its tab followed by the first
   * field of `tail`, and the remaining fields of `tail`.
   */
  lemma SurfaceFields(loc: string, field: string, tail: string)
    requires '\t' !in loc
    requires |field| >= 1 && field[0] == '\t' && '\t' !in field[1..]
    ensures Split(loc + field + tail, '\t') ==
              [loc, field[1..] + Split(tail, '\t')[0]] + Split(tail, '\t')[1..]
  {
    var w := field[1..];
    SplitPrefix(w, tail, '\t');
    SplitField(loc, w + tail, '\t');
    assert field == ['\t'] + w;
    Regroup(loc, ['\t'], w, tail);
  }

  /** Regrouping four concatenated strings. */
  lemma Regroup(a: string, b: string, c: string, d: string)
    ensures a + (b + c) + d == a + b + (c + d)
  {
  }

  /** Regrouping the middle three of five concatenated strings. */
  lemma RegroupMiddle(a: string, b: string, c: string, d: string, e: string)
    ensures a + b + c + d + e == a + (b + c + d) + e
  {
  }

  // ---------------------------------------------------------------------------
  // split_dem
  // ---------------------------------------------------------------------------

  /** `كُم`, the stem of the plural addressee suffixes. */
  const Kum: string := "\U{643}\U{64F}\U{645}"

  /** The keys of `addr_forms`, in the order the dictionary lists them: كَ كِ كُمَا كُم كُنَّ. */
  const AddrKeys: seq<string> := [
    "\U{643}\U{64E}", "\U{643}\U{650}", "\U{643}\U{64F}\U{645}\U{64E}\U{627}", Kum,
    "\U{643}\U{64F}\U{646}\U{651}\U{64E}"]

  /** The values of `addr_forms`, key by key. */
  const AddrTags: seq<string> := ["M", "F", "D", "MP", "FP"]

  /** The `ل:DIST` feature of a distance record. */
  const DistFeature: string := "\U{644}:DIST"

  /** `addr_forms[key]`; None where Python raises KeyError. */
  function AddrLookup(key: string): (form: Option<string>)
    ensures form.Some? <==> key in AddrKeys
    ensures forall k :: 0 <= k < |AddrKeys| && key == AddrKeys[k] ==> form == Some(AddrTags[k])
  {
    if key == AddrKeys[0] then Some("M")
    else if key == AddrKeys[1] then Some("F")
    else if key == AddrKeys[2] then Some("D")
    else if key == AddrKeys[3] then Some("MP")
    else if key == AddrKeys[4] then Some("FP")
    else None
  }

  /** Python's `s[:n]`: the whole string when it is shorter than `n`. */
  function Prefix(s: string, n: nat): (r: string)
    ensures |r| == (if |s| < n then |s| else n)
    ensures r == s[..|r|]
  {
    if |s| < n then s else s[..n]
  }

  /**
   * The addressee form of suffix `addr`: a suffix of three or four characters
   * beginning with `كُم` is plural masculine whatever its last vowel, any other
   * suffix must be a key of `addr_forms`.
   */
  function AddrForm(addr: string): (form: Option<string>)
    ensures form.Some? <==> addr in AddrKeys || (3 <= |addr| < 5 && addr[..3] == Kum)
    ensures 3 <= |addr| < 5 && addr[..3] == Kum ==> form == Some("MP")
    ensures addr == AddrKeys[2] ==> form == Some("D")
    ensures form.Some? ==> form.value in AddrTags
    ensures !(3 <= |addr| < 5 && addr[..3] == Kum) ==> form == AddrLookup(addr)
  {
    if Prefix(addr, 3) == Kum && |addr| < 5 then AddrLookup(Prefix(addr, 3)) else AddrLookup(addr)
  }

  /** Python truthiness of an optional group: present and non-empty. */
  predicate Truthy(g: Option<string>)
  {
    g.Some? && g.value != ""
  }

  /**
   * The text `split_dem` returns for groups `g1` … `g6`: the base record (groups 1,
   * 2, 3 and 6), then a distance record when group 4 is there, then the addressee
   * record, one per line; None when the suffix has no addressee form.
   */
  function DemSplit(g1: string, g2: char, g3: string, g4: Option<string>, g5: string, g6: string): Option<string>
    requires IsDigit(g2)
  {
    match AddrForm(g5)
    case None => None
    case Some(form) =>
      var d := DigitValue(g2);
      var base := g1 + [g2] + g3 + g6;
      if Truthy(g4) then
        Some(Join([base, Record(g1, d + 1, g4.value, "DIST", DistFeature), Record(g1, d + 2, g5, "ADDR", "ADDR:" + form)], '\n'))
      else
        Some(Join([base, Record(g1, d + 1, g5, "ADDR", "ADDR:" + form)], '\n'))
  }

  /** `split_dem` as the script writes it, building `out` and bumping `i`. */
  method SplitDem(g1: string, g2: char, g3: string, g4: Option<string>, g5: string, g6: string)
    returns (r: Option<string>)
    requires IsDigit(g2)
    ensures r == DemSplit(g1, g2, g3, g4, g5, g6)
  {
    var out := g1 + [g2] + g3 + g6;
    var i := DigitValue(g2) + 1;
    if Truthy(g4) {
      out := out + "\n" + Record(g1, i, g4.value, "DIST", DistFeature);
      i := i + 1;
    }
    var form := AddrForm(g5);
    if form.None? {
      return None;
    }
    r := Some(out + "\n" + Record(g1, i, g5, "ADDR", "ADDR:" + form.value));
    if Truthy(g4) {
      JoinThree(g1 + [g2] + g3 + g6, Record(g1, i - 1, g4.value, "DIST", DistFeature), Record(g1, i, g5, "ADDR", "ADDR:" + form.value), '\n');
    } else {
      JoinTwo(g1 + [g2] + g3 + g6, Record(g1, i, g5, "ADDR", "ADDR:" + form.value), '\n');
    }
  }

  /** What the `split_dem` pattern guarantees of its groups that the proofs use. */
  predicate DemGroups(g1: string, g3: string, g4: Option<string>, g5: string, g6: string)
  {
    && '\n' !in g1 && '\n' !in g3 && '\n' !in g5 && '\n' !in g6
    && (g4.Some? ==> '\n' !in g4.value && '\t' !in g4.value)
    && '\t' !in g1 && '\t' !in g5
    && |g3| >= 1 && g3[0] == '\t' && '\t' !in g3[1..]
    && |g6| >= 1 && g6[0] == '\t'
  }

  /**
   * On a record of exactly four tab-separated fields, the `split_dem` pattern leaves
   * no room for a tab outside group 3's leading one and the two inside group 6, so
   * its groups satisfy `DemGroups`.
   */
  lemma DemGroupsOfFourFields(g1: string, g2: char, g3: string, g4: Option<string>, g5: string, g6: string)
    requires IsDigit(g2)
    requires '\n' !in g1 && '\n' !in g3 && '\n' !in g5 && '\n' !in g6
    requires g4.Some? ==> '\n' !in g4.value
    requires |g3| >= 1 && g3[0] == '\t'
    requires |g6| >= 1 && g6[0] == '\t' && '\t' in g6[1..]
    requires |Split(g1 + [g2] + g3 + (if g4.Some? then g4.value else "") + g5 + g6, '\t')| == 4
    ensures DemGroups(g1, g3, g4, g5, g6)
  {
    var infix := if g4.Some? then g4.value else "";
    var line := g1 + [g2] + g3 + infix + g5 + g6;
    SplitCount(line, '\t');
    CountAppend(g1 + [g2] + g3 + infix + g5, g6, '\t');
    CountAppend(g1 + [g2] + g3 + infix, g5, '\t');
    CountAppend(g1 + [g2] + g3, infix, '\t');
    CountAppend(g1 + [g2], g3, '\t');
    CountAppend(g1, [g2], '\t');
    assert Count(g3, '\t') == 1 + Count(g3[1..], '\t');
    assert Count(g6, '\t') == 1 + Count(g6[1..], '\t');
    assert Count([g2], '\t') == 0 by {
      assert [g2][1..] == [];
    }
  }

  /**
   * `split_dem` yields the base record and then one record per split-off suffix:
   * a `DIST` record exactly when group 4 is present, and always one `ADDR` record
   * last. The new records carry part indices `int(g2) + 1`, `int(g2) + 2`, … in
   * order, and each has four fields: location, suffix text, tag and feature.
   */
  lemma DemSplitRecords(g1: string, g2: char, g3: string, g4: Option<string>, g5: string, g6: string)
    requires IsDigit(g2)
    requires DemGroups(g1, g3, g4, g5, g6)
    requires AddrForm(g5).Some?
    ensures var lines := Split(DemSplit(g1, g2, g3, g4, g5, g6).value, '\n');
            var d := DigitValue(g2);
            && |lines| == (if Truthy(g4) then 3 else 2)
            && lines[0] == g1 + [g2] + g3 + g6
            && (Truthy(g4) ==> NewRecord(lines[1], g1, d + 1, g4.value, "DIST", DistFeature))
            && NewRecord(lines[|lines| - 1], g1, d + |lines| - 1, g5, "ADDR", "ADDR:" + AddrForm(g5).value)
  {
    var d := DigitValue(g2);
    var form := AddrForm(g5).value;
    var addrAt := if Truthy(g4) then d + 2 else d + 1;
    DemSplitLines(g1, g2, g3, g4, g5, g6);
    assert '\t' !in "ADDR:" + form by {
      assert form in AddrTags;
    }
    RecordReadsBack(g1, addrAt, g5, "ADDR", "ADDR:" + form);
    if Truthy(g4) {
      RecordReadsBack(g1, d + 1, g4.value, "DIST", DistFeature);
    }
  }

  /** The records `split_dem` writes are exactly the lines of its result. */
  lemma DemSplitLines(g1: string, g2: char, g3: string, g4: Option<string>, g5: string, g6: string)
    requires IsDigit(g2)
    requires DemGroups(g1, g3, g4, g5, g6)
    requires AddrForm(g5).Some?
    ensures var d := DigitValue(g2);
            var form := AddrForm(g5).value;
            var base := g1 + [g2] + g3 + g6;
            Split(DemSplit(g1, g2, g3, g4, g5, g6).value, '\n') ==
              if Truthy(g4) then
                [base, Record(g1, d + 1, g4.value, "DIST", DistFeature), Record(g1, d + 2, g5, "ADDR", "ADDR:" + form)]
              else
                [base, Record(g1, d + 1, g5, "ADDR", "ADDR:" + form)]
  {
    var d := DigitValue(g2);
    var form := AddrForm(g5).value;
    var base := g1 + [g2] + g3 + g6;
    var addrAt := if Truthy(g4) then d + 2 else d + 1;
    var addr := Record(g1, addrAt, g5, "ADDR", "ADDR:" + form);
    assert '\n' !in "ADDR:" + form by {
      assert form in AddrTags;
    }
    RecordLine(g1, addrAt, g5, "ADDR", "ADDR:" + form);
    if Truthy(g4) {
      var dist := Record(g1, d + 1, g4.value, "DIST", DistFeature);
      RecordLine(g1, d + 1, g4.value, "DIST", DistFeature);
      SplitJoin([base, dist, addr], '\n');
    } else {
      SplitJoin([base, addr], '\n');
    }
  }

  /**
   * The split keeps the word: the base record keeps the original location and all
   * fields after the surface form, and its surface form followed by the split-off
   * suffix texts is the original surface form.
   */
  lemma DemSplitPreservesWord(g1: string, g2: char, g3: string, g4: Option<string>, g5: string, g6: string)
    requires IsDigit(g2)
    requires DemGroups(g1, g3, g4, g5, g6)
    ensures var dist := if Truthy(g4) then g4.value else "";
            var original := Split(g1 + [g2] + g3 + dist + g5 + g6, '\t');
            var base := Split(g1 + [g2] + g3 + g6, '\t');
            && |original| >= 2
            && |base| == |original|
            && base[0] == original[0]
            && base[1] + dist + g5 == original[1]
            && base[2..] == original[2..]
  {
    var dist := if Truthy(g4) then g4.value else "";
    var loc := g1 + [g2];
    var surface := g3 + dist + g5;
    assert surface[1..] == g3[1..] + dist + g5;
    RegroupMiddle(loc, g3, dist, g5, g6);
    SurfaceFields(loc, g3, g6);
    SurfaceFields(loc, surface, g6);
    SplitField("", g6[1..], '\t');
    assert g6 == "" + ['\t'] + g6[1..];
  }

  // ---------------------------------------------------------------------------
  // The attention-prefix split
  // ---------------------------------------------------------------------------

  /** The features of the split-off prefix: `PREFIX|هَ+`. */
  const AttFeature: string := "PREFIX|\U{647}\U{64E}+"

  /**
   * The replacement for a demonstrative whose surface form starts with `هَٰ`: the
   * prefix stays in the record, now tagged `ATT`, and the rest of the word becomes a
   * new record with the same location and the next part index.
   */
  function AttSplit(g1: string, g2: char, g3: string, g4: string): string
    requires IsDigit(g2)
  {
    g1 + [g2] + g3 + "\t" + "ATT" + "\t" + AttFeature + "\n" + g1 + NatToString(DigitValue(g2) + 1) + "\t" + g4
  }

  /** The attention split as two lines of tab-separated fields. */
  lemma AttSplitLines(g1: string, g2: char, g3: string, g4: string)
    requires IsDigit(g2)
    requires |g3| >= 1 && g3[0] == '\t'
    ensures AttSplit(g1, g2, g3, g4) ==
              Join([Join([g1 + [g2], g3[1..], "ATT", AttFeature], '\t'),
                    Join([g1 + NatToString(DigitValue(g2) + 1), g4], '\t')], '\n')
  {
    var first := Join([g1 + [g2], g3[1..], "ATT", AttFeature], '\t');
    var second := Join([g1 + NatToString(DigitValue(g2) + 1), g4], '\t');
    JoinFour(g1 + [g2], g3[1..], "ATT", AttFeature, '\t');
    JoinTwo(g1 + NatToString(DigitValue(g2) + 1), g4, '\t');
    JoinTwo(first, second, '\n');
    assert g3 == ['\t'] + g3[1..];
  }

  /** The new record of the attention split: its location, then the fields of `g4`. */
  lemma AttNewRecord(g1: string, n: nat, g4: string)
    requires '\t' !in g1
    ensures var rest := Split(Join([g1 + NatToString(n), g4], '\t'), '\t');
            && rest == [g1 + NatToString(n)] + Split(g4, '\t')
            && StartsWith(rest[0], g1)
            && AllDigits(rest[0][|g1|..])
            && ParseNat(rest[0][|g1|..]) == n
  {
    var index := g1 + NatToString(n);
    assert '\t' !in NatToString(n);
    JoinTwo(index, g4, '\t');
    SplitField(index, g4, '\t');
    assert index[|g1|..] == NatToString(n);
    assert index[..|g1|] == g1;
    ParseNatToString(n);
  }

  /** The attention split's single line break separates its two records. */
  lemma AttSplitLineBreak(g1: string, g2: char, g3: string, g4: string)
    requires IsDigit(g2)
    requires '\n' !in g1 && '\n' !in g3 && '\n' !in g4
    requires |g3| >= 1 && g3[0] == '\t'
    ensures Split(AttSplit(g1, g2, g3, g4), '\n') ==
              [Join([g1 + [g2], g3[1..], "ATT", AttFeature], '\t'),
               Join([g1 + NatToString(DigitValue(g2) + 1), g4], '\t')]
  {
    var n := DigitValue(g2) + 1;
    var first := Join([g1 + [g2], g3[1..], "ATT", AttFeature], '\t');
    var second := Join([g1 + NatToString(n), g4], '\t');
    AttSplitLines(g1, g2, g3, g4);
    assert '\n' !in NatToString(n);
    assert '\n' !in AttFeature;
    JoinFree([g1 + [g2], g3[1..], "ATT", AttFeature], '\t', '\n');
    JoinFree([g1 + NatToString(n), g4], '\t', '\n');
    SplitJoin([first, second], '\n');
  }

  /**
   * The attention split gives two records. The first keeps the location and the
   * prefix and is tagged `ATT`; the second has the same location with the next part
   * index; the two surface forms together are the original one, and the second
   * record keeps every field after the original surface form.
   */
  lemma AttSplitPreservesWord(g1: string, g2: char, g3: string, g4: string)
    requires IsDigit(g2)
    requires '\n' !in g1 && '\n' !in g3 && '\n' !in g4
    requires '\t' !in g1
    requires |g3| >= 1 && g3[0] == '\t' && '\t' !in g3[1..]
    ensures var lines := Split(AttSplit(g1, g2, g3, g4), '\n');
            var original := Split(g1 + [g2] + g3 + g4, '\t');
            && |lines| == 2
            && |original| >= 2
            && var prefix := Split(lines[0], '\t');
               var rest := Split(lines[1], '\t');
               && prefix == [original[0], g3[1..], "ATT", AttFeature]
               && |rest| == |original|
               && StartsWith(rest[0], g1)
               && AllDigits(rest[0][|g1|..])
               && ParseNat(rest[0][|g1|..]) == DigitValue(g2) + 1
               && prefix[1] + rest[1] == original[1]
               && rest[2..] == original[2..]
  {
    var w := g3[1..];
    var loc := g1 + [g2];
    var n := DigitValue(g2) + 1;
    AttSplitLineBreak(g1, g2, g3, g4);
    assert '\t' !in AttFeature;
    SplitJoin([loc, w, "ATT", AttFeature], '\t');
    AttNewRecord(g1, n, g4);
    SurfaceFields(loc, g3, g4);
  }

  // ---------------------------------------------------------------------------
  // Verb forms
  // ---------------------------------------------------------------------------

  /** `verb_forms`: the Roman numerals of the eleven verb forms, form I first. */
  const VerbForms: seq<string> := ["I", "II", "III", "IV", "V", "VI", "VII", "VIII", "IX", "X", "XI"]

  /** `xs.index(x)`: the first position holding `x`. */
  function IndexOf(xs: seq<string>, x: string): (i: nat)
    requires x in xs
    ensures i < |xs| && xs[i] == x
    ensures forall j :: 0 <= j < i ==> xs[j] != x
  {
    if xs[0] == x then 0 else 1 + IndexOf(xs[1..], x)
  }

  /**
   * The verb-form replacement for `(roman)`: `VF:` and the numeral's 1-based position
   * in `verb_forms`, or None where `index` raises ValueError.
   */
  function VerbFormTag(roman: string): (tag: Option<string>)
    ensures tag.None? <==> roman !in VerbForms
  {
    if roman in VerbForms then Some("VF:" + NatToString(IndexOf(VerbForms, roman) + 1)) else None
  }

  /** No element of `xs` appears twice. */
  predicate Distinct(xs: seq<string>)
  {
    forall i, j :: 0 <= i < j < |xs| ==> xs[i] != xs[j]
  }

  /** In a list without repeats, `index` finds every element where it is. */
  lemma IndexOfDistinct(xs: seq<string>, k: nat)
    requires Distinct(xs)
    requires k < |xs|
    ensures IndexOf(xs, xs[k]) == k
  {
  }

  /** No numeral appears twice in `verb_forms`. */
  lemma VerbFormsDistinct()
    ensures Distinct(VerbForms)
  {
  }

  /** Form n's numeral becomes `VF:n`, for every form from 1 to 11. */
  lemma VerbFormTagNumbers(n: nat)
    requires 1 <= n <= |VerbForms|
    ensures VerbFormTag(VerbForms[n - 1]) == Some("VF:" + NatToString(n))
  {
    VerbFormsDistinct();
    IndexOfDistinct(VerbForms, n - 1);
  }

  /**
   * Every tag the replacement produces reads back as a form number from 1 to 11
   * whose numeral is the one that was replaced.
   */
  lemma VerbFormTagInverse(roman: string)
    requires VerbFormTag(roman).Some?
    ensures var tag := VerbFormTag(roman).value;
            && |tag| > 3 && tag[..3] == "VF:"
            && AllDigits(tag[3..])
            && 1 <= ParseNat(tag[3..]) <= |VerbForms|
            && VerbForms[ParseNat(tag[3..]) - 1] == roman
  {
    var n := IndexOf(VerbForms, roman) + 1;
    var tag := VerbFormTag(roman).value;
    assert tag[3..] == NatToString(n);
    ParseNatToString(n);
  }
}
