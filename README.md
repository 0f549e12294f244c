# Quranic morphology corpus: transliteration and fixes, in Dafny

This project models the two scripts that turn the Quranic Arabic Corpus
morphology file (version 0.4) into its Arabic-script, corrected form, and proves
properties of the model.

- `scripts/bw-to-ar.py` copies the 57-line copyright header. Then, for every data
  line:
  - it splits the line on tabs;
  - it drops the parentheses around the location (field 0);
  - it transliterates the surface form (field 1) from Buckwalter to Arabic with
    the fixed `bw` table;
  - in the feature field (field 3), it transliterates only the attribute spans:
    the values after `ROOT:`, `LEM:` and `SP:`, and the first token of every
    `PREFIX|`/`SUFFIX|` segment that is not `PRON`.
- `scripts/apply-changes.py` threads the whole text through an ordered list of
  fixes. Each fix is either a literal `str.replace` or a regular-expression
  substitution. Three of the substitutions compute their replacement in code:
  - `split_dem` splits a demonstrative with a distance infix and an addressee
    suffix into two or three records;
  - the lambda at line 199 splits the attention prefix `هَٰ` off a demonstrative;
  - the lambda at line 278 turns a Roman-numeral verb form `(IV)` into `VF:4`.

`apply-changes.py` is a Python 2 program (it uses the `print` statement), and
`bw-to-ar.py` is taken to run under the same interpreter. Strings are modelled
as sequences of code points.

Files:

- `wrappers.dfy`: the `Option` and `Result` datatypes.
- `pystr.dfy`: the Python string built-ins the scripts use, with their laws.
  - `split` and `join` on one character; `split` undoes `join`.
  - `s[1:-1]`, `str.translate`, `str.count` on one character, and `str(n)` /
    `int(s)` for naturals.
- `buckwalter.dfy`: the `bw` table and per-character translation.
- `feature_spans.dfy`: the span substitution on field 3. It is proved equal to
  an independent, per-position definition of which characters are translated.
- `bw_to_ar.dfy`: the line transform and the script's main loop.
- `rewrite.dfy`: the rule engine and `str.replace`.
- `replacements.dfy`: `split_dem`, the attention split and the verb-form
  replacement.

Behaviour of the scripts worth noting:

- A data line may have more than four tab-separated fields. The loop only needs
  fields 1 and 3 to exist, and fields after the fourth pass through unchanged.
- The feature field also gets its prefix and suffix tokens transliterated, not
  just the root and lemma values. The surface form is transliterated in full.
- When a line is malformed, the lines written before it remain in the output.

## Model

| member | source | states |
|---|---|---|
| PyStr.StripEnds | scripts/bw-to-ar.py:37 | `s[1:-1]` is `s` without its first and last character (empty for shorter strings) |
| PyStr.TranslateWith | scripts/bw-to-ar.py:38 | `translate` keeps the length and maps each character on its own |
| PyStr.Join | scripts/bw-to-ar.py:40 | `'\t'.join(parts)`; `PyStr.SplitJoin` proves that splitting the joined line gives the parts back |
| PyStr.Split | scripts/bw-to-ar.py:36 | `split` gives at least one part, no part holds the separator, and joining the parts gives the string back |
| PyStr.SplitJoin | scripts/bw-to-ar.py:36-40 | `split` undoes `join` when no part holds the separator |
| PyStr.SplitField | scripts/bw-to-ar.py:36 | a separator-free field followed by the separator is split off as one part |
| PyStr.NatToString | scripts/apply-changes.py:15-22 | `str(n)` is a non-empty digit string with no leading zero, one digit exactly below 10 |
| PyStr.ParseNatToString | scripts/apply-changes.py:15 | `int(str(n)) == n` |
| PyStr.NatToStringInjective | scripts/apply-changes.py:13 | distinct part indices print differently |
| Buckwalter.BwTable | scripts/bw-to-ar.py:12-22 | the `bw` dictionary, entry by entry; `BwRanges`, `BwInjective` and `BwTableInverse` (against an independent inverse table) characterise it |
| Buckwalter.Tr | scripts/bw-to-ar.py:23 | `bw_map` as `translate` uses it: a key becomes its value, any other character stays; `TrDelimiter` and `TranslateRoundTrip` characterise it |
| Buckwalter.BwRanges | scripts/bw-to-ar.py:12-22 | every key of `bw` is ASCII and every value lies in U+0621..U+06ED |
| Buckwalter.BwTableInverse | scripts/bw-to-ar.py:12-23 | the inverse table maps each value back to its key |
| Buckwalter.BwInjective | scripts/bw-to-ar.py:12-22 | two keys have the same value if and only if they are the same key |
| Buckwalter.DelimitersNotKeys | scripts/bw-to-ar.py:12-22 | tab, newline and the pipe are not keys |
| Buckwalter.DigitsNotKeys | scripts/bw-to-ar.py:12-22 | no digit is a key |
| Buckwalter.TrDelimiter | scripts/bw-to-ar.py:23 | `bw_map` keeps each delimiter and maps no other character to one |
| Buckwalter.Translate | scripts/bw-to-ar.py:38 | same length; each character becomes its table value, or stays when it is not a key |
| Buckwalter.TranslateRoundTrip | scripts/bw-to-ar.py:12-23 | on text free of the table's Arabic values, translating back through the inverse table restores the text |
| Buckwalter.TranslateKeepsDelimiters | scripts/bw-to-ar.py:38 | translation keeps every tab, newline and pipe where it was and creates none |
| FeatureSpans.SpanScan | scripts/bw-to-ar.py:39 | the left-to-right `re.sub` over the four joined patterns, translating each match; `ScanCorrect` proves it equal to the per-position definition `Translated` |
| FeatureSpans.ValueEnd | scripts/bw-to-ar.py:25-27 | the value pattern from p stops at the first pipe, newline or the end |
| FeatureSpans.TokenEnd | scripts/bw-to-ar.py:28 | the lazy token pattern from p stops at the first `:` or `+` before any newline, and fails without one |
| FeatureSpans.ValueNotAffix | scripts/bw-to-ar.py:24-29 | no position is both in an attribute value and in a prefix/suffix token |
| FeatureSpans.ValueRun | scripts/bw-to-ar.py:25-27 | every value character from a key on belongs to that key's value |
| FeatureSpans.ClosedTokenEnd | scripts/bw-to-ar.py:28 | a token run is closed by `:` or `+` exactly when the lazy match from it succeeds |
| FeatureSpans.TokenRun | scripts/bw-to-ar.py:28 | every character of a matched token lies in a closed prefix/suffix run |
| FeatureSpans.KeySpan | scripts/bw-to-ar.py:25-27 | a value span the substitution matches is wholly translated, and matching may restart after it |
| FeatureSpans.TokenSpan | scripts/bw-to-ar.py:28 | a token span the substitution matches is wholly translated, and matching may restart after it |
| FeatureSpans.CopiedChar | scripts/bw-to-ar.py:39 | a character outside every match is not translated |
| FeatureSpans.SpanThenScan | scripts/bw-to-ar.py:39 | a translated span followed by a correct rest of the substitution gives a correct substitution |
| FeatureSpans.KeyStep | scripts/bw-to-ar.py:25-27 | a value match keeps the substitution in agreement with the per-position definition |
| FeatureSpans.TokenStep | scripts/bw-to-ar.py:28 | a token match keeps the substitution in agreement with the per-position definition |
| FeatureSpans.CopyStep | scripts/bw-to-ar.py:39 | a copied character keeps the substitution in agreement with the per-position definition |
| FeatureSpans.ScanCorrect | scripts/bw-to-ar.py:24-29 | from any boundary, the substitution translates exactly the attribute values and the closed non-PRON prefix/suffix tokens, and copies the rest |
| FeatureSpans.TranslateSpans | scripts/bw-to-ar.py:39 | field 3 keeps its length; translated positions go through the table, all others (keys, tags, `PRON` segments) are unchanged |
| BwToAr.TransformLine | scripts/bw-to-ar.py:36-40 | a line fails, at field 1 or 3, exactly when it has fewer than four tab-separated fields |
| BwToAr.TransformLineFields | scripts/bw-to-ar.py:36-40 | the output has as many fields as the input: field 0 stripped, field 1 translated, field 2 unchanged, field 3 span-translated, later fields unchanged |
| BwToAr.SpansKeepDelimiter | scripts/bw-to-ar.py:39 | the span substitution keeps every tab, newline and pipe and creates none |
| BwToAr.Convert | scripts/bw-to-ar.py:31-40 | the first 57 lines are copied unchanged; each later line yields exactly one output line in order; a malformed line stops the run with only the lines before it written |
| Rewrite.ReplaceAll | scripts/apply-changes.py:296 | `str.replace`: non-overlapping, left-to-right replacement; an empty pattern puts the replacement around every character |
| Rewrite.InterleaveLength | scripts/apply-changes.py:296 | the empty-pattern replacement inserts the replacement `len(t) + 1` times |
| Rewrite.ReplaceLeftmost | scripts/apply-changes.py:296 | the text before the first occurrence is copied, that occurrence is replaced, and the scan resumes right after it |
| Rewrite.ReplaceAbsent | scripts/apply-changes.py:296 | a text without the pattern is unchanged |
| Rewrite.ReplaceSelf | scripts/apply-changes.py:296 | a rule replacing a pattern by itself changes nothing |
| Rewrite.ReplaceLength | scripts/apply-changes.py:296 | a shorter replacement never lengthens the text and a longer one never shortens it |
| Rewrite.ReplaceChanges | scripts/apply-changes.py:296 | replacing an occurring pattern by a different string always changes the text |
| Rewrite.ReplaceUnchangedIff | scripts/apply-changes.py:296 | a literal rule leaves the text unchanged if and only if the pattern does not occur or is its own replacement |
| Rewrite.OutputPrefixFromInput | scripts/apply-changes.py:296 | under the self-clearing conditions, an output that starts with text free of the pattern's first character comes from an input that starts with the same text |
| Rewrite.ReplacementThenClear | scripts/apply-changes.py:296 | a self-clearing replacement followed by pattern-free text is pattern-free |
| Rewrite.CopiedStart | scripts/apply-changes.py:296 | under the self-clearing conditions, the output at a copied character starts with the pattern only if the input did |
| Rewrite.CopyThenClear | scripts/apply-changes.py:296 | a character followed by pattern-free text is pattern-free unless it starts the pattern |
| Rewrite.NoOccurrenceRemains | scripts/apply-changes.py:296 | under the self-clearing conditions, no occurrence of the pattern survives one pass |
| Rewrite.RootFixComplete | scripts/apply-changes.py:38 | after the `ROOT:لالا` fix, no `ROOT:لالا` remains anywhere in the text |
| Rewrite.ApplyRule | scripts/apply-changes.py:293-296 | one fix on the whole text: `str.replace` for a literal rule, the substitution for a regex rule, None where it raises; `ApplyRulesFirst` and `RunFixes` use it |
| Rewrite.ApplyRules | scripts/apply-changes.py:291-296 | the fixes in list order, each on the previous output; `ApplyRulesAppend`, `ApplyRulesFirst` and `RunFixes` characterise it |
| Rewrite.ApplyRulesAppend | scripts/apply-changes.py:291-296 | running two rule lists one after the other is running their concatenation, and a raise stops everything after it |
| Rewrite.ApplyRulesFirst | scripts/apply-changes.py:291-296 | the first rule sees the input, and the rest see its whole output |
| Rewrite.RunFixes | scripts/apply-changes.py:291-296 | each rule is announced and then applied once, in list order, to the previous rule's output; a raising rule is the last one announced |
| Replacements.Record | scripts/apply-changes.py:13 | the template `tpl` filled with location plus part index, text, tag and feature; `RecordFields` and `RecordReadsBack` characterise it |
| Replacements.RecordFields | scripts/apply-changes.py:13 | a record written from the template has exactly the four fields put into it |
| Replacements.RecordLine | scripts/apply-changes.py:13 | a record written from newline-free values is one line |
| Replacements.RecordReadsBack | scripts/apply-changes.py:13-22 | reading a written record back gives its location, its part index (through `int`), its text, tag and feature |
| Replacements.AddrLookup | scripts/apply-changes.py:12 | `addr_forms[key]` is defined exactly on the five keys and gives each key's form |
| Replacements.Prefix | scripts/apply-changes.py:21 | `s[:n]` is the prefix of `s` of length `min(len(s), n)`, so `addr[:3]` never raises |
| Replacements.AddrForm | scripts/apply-changes.py:12-21 | defined exactly on the five keys and on three- or four-character suffixes starting with `كُم`, which give `MP`; every other suffix gets exactly its own `addr_forms` value (so `كَ` gives `M`, `كِ` `F`, `كُمَا` `D`, `كُنَّ` `FP`) |
| Replacements.DemSplit | scripts/apply-changes.py:11-22 | the value `split_dem` returns, None for a KeyError; `DemSplitLines`, `DemSplitRecords` and `DemSplitPreservesWord` characterise it |
| Replacements.DemGroupsOfFourFields | scripts/apply-changes.py:201 | on a record of exactly four tab-separated fields, the groups of the `split_dem` pattern hold no tab outside group 3's leading one and group 6 |
| Replacements.SplitDem | scripts/apply-changes.py:11-22 | the imperative `split_dem` (building `out`, bumping `i`) returns the records of `DemSplit`, or raises exactly when the suffix has no form |
| Replacements.DemSplitLines | scripts/apply-changes.py:13-22 | the lines of the result are the base record, the `DIST` record when group 4 is present, and the `ADDR` record |
| Replacements.DemSplitRecords | scripts/apply-changes.py:13-22 | two records without group 4 and three with it; the base record is groups 1, 2, 3 and 6; the new records read back with part indices `int(g2) + 1`, then `+ 2`, and with their tags and features |
| Replacements.DemSplitPreservesWord | scripts/apply-changes.py:14 | the base record keeps the location and the fields after the surface form, and its surface form followed by the split-off infix and suffix is the original surface form |
| Replacements.SurfaceFields | scripts/apply-changes.py:199-201 | the fields of a record whose second field continues into the rest of the line |
| Replacements.AttSplit | scripts/apply-changes.py:199 | the value the attention lambda returns; `AttSplitLines`, `AttNewRecord`, `AttSplitLineBreak` and `AttSplitPreservesWord` characterise it |
| Replacements.AttSplitLines | scripts/apply-changes.py:199 | the attention split is two tab-separated records joined by a newline |
| Replacements.AttNewRecord | scripts/apply-changes.py:199 | the second record starts with the location and the next part index, followed by the fields of group 4 |
| Replacements.AttSplitLineBreak | scripts/apply-changes.py:199 | the attention split's only line break separates its two records |
| Replacements.AttSplitPreservesWord | scripts/apply-changes.py:199 | the first record keeps the location and the prefix, tagged `ATT` with the `هَ` prefix feature; the second has part index `int(g2) + 1`; the two surface forms make up the original one; later fields are kept |
| Replacements.IndexOf | scripts/apply-changes.py:278 | `list.index` gives the first position that holds the element |
| Replacements.IndexOfDistinct | scripts/apply-changes.py:278 | in a list without repeats, `index` finds every element at its position |
| Replacements.VerbFormsDistinct | scripts/apply-changes.py:24 | `verb_forms` has no repeats |
| Replacements.VerbFormTag | scripts/apply-changes.py:278 | the replacement raises exactly when the numeral is not one of the eleven |
| Replacements.VerbFormTagNumbers | scripts/apply-changes.py:278 | form n's numeral becomes `VF:n`, for n from 1 to 11 |
| Replacements.VerbFormTagInverse | scripts/apply-changes.py:278 | every tag produced reads back as a number n from 1 to 11 whose numeral is the one replaced |

## Left out

- File I/O and encoding are not modelled. The input is a list of lines, each
  ending in its own terminator, or one text. The output is the list of lines
  written or the final text.
- Progress printing is not modelled as output. `RunFixes` returns the list of
  announced patterns instead, without the `Replacing ` text of each message.
- The regular-expression engine is not modelled. A regex fix is an opaque
  function from the whole text to the new text, or to None where its replacement
  raised.
  - About 150 regex rules and their hard-coded location lists are therefore not
    modelled one by one. Nor is the linguistic correctness of any fix.
  - `split_dem`, the attention lambda and the verb-form lambda get their groups as
    parameters. The lemmas require of those groups only what the patterns give:
    no group holds a newline (`.` does not match one), and group 3 starts with a
    tab.
  - `split_dem` is assumed to match a record of exactly four tab-separated
    fields, as every corpus record has. `(\t.+?)` alone does not stop at a tab;
    `Replacements.DemGroupsOfFourFields` proves that under this assumption groups
    1, 4 and 5, and group 3 after its leading tab, hold no tab, which is what
    `Replacements.DemGroups` asks for.
  - `Replacements.AttSplitPreservesWord`: group 1 is assumed to be free of tabs.
    The greedy `.*:` could in principle swallow one, but corpus locations hold
    none.
- The span substitution of `bw-to-ar.py` is modelled by its effect on the text.
  - Python 2's `re.sub` hands an empty match to the callable, whose translation
    of the empty string is empty, and resumes one character later, so an empty
    prefix/suffix token leaves the text unchanged.
  - `bw-to-ar.py` is assumed to run under Python 2, like `apply-changes.py`. Under
    Python 3.7 or later, `re.sub` also replaces a match right after an empty one,
    so a `+`-led token such as the `+n` of `SUFFIX|+n:` would be translated as well.
  - The optional look-behind `(?<=\+)?` is zero-width and optional, so it never
    changes a match.
- `bw` is written as a `match` on the key, in the dictionary's order, rather than
  as a map display. `bw_map` is the same table keyed by code point.
- In-place updates of the Python `parts` list are modelled as reassignments of a
  Dafny sequence.
- The literal rows of the fixes list other than the root fix at line 38 are not
  instantiated one by one. The lemmas about `ReplaceAll` hold for all of them.
