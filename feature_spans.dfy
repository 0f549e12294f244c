/**
 * Model of the `trans` substitution of scripts/bw-to-ar.py, applied to the
 * feature field (field 3) of each record: a left-to-right scan that translates
 *   - the value after `ROOT:`, `LEM:` or `SP:`, up to the next `|` or newline, and
 *   - the first token of a `PREFIX|` or `SUFFIX|` segment that does not start
 *     with `PRON`, up to the first `:` or `+` on the same line,
 * and copies every other character. The look-behinds are read on the original
 * text, as Python's `re.sub` does. An empty match (a token ending at once) is
 * translated to the empty string and the search resumes one character later,
 * so it leaves the text as it is.
 */
module FeatureSpans {
  import opened PyStr
  import opened Wrappers
  
  /** The text before position p ends with k (a fixed-width look-behind). */
  predicate EndsAt(s: string, p: nat, k: string)
    requires p <= |s|
  {
    |k| <= p && s[p - |k|..p] == k
  }

  /** The look-behinds `(?<=ROOT:)`, `(?<=LEM:)`, `(?<=SP:)`. */
  predicate KeyBefore(s: string, p: nat)
    requires p <= |s|
  {
    EndsAt(s, p, "ROOT:") || EndsAt(s, p, "LEM:") || EndsAt(s, p, "SP:")
  }

  /** The look-behind `(?<=PREFIX\||SUFFIX\|)`. */
  predicate AffixBefore(s: string, p: nat)
    requires p <= |s|
  {
    EndsAt(s, p, "PREFIX|") || EndsAt(s, p, "SUFFIX|")
  }

  /** The look-ahead `PRON`, which `(?!PRON)` excludes. */
  predicate PronAt(s: string, p: nat)
    requires p <= |s|
  {
    StartsWith(s[p..], "PRON")
  }

  /** A character of an attribute value: `[^|\n]`. */
  predicate IsValueChar(c: char)
  {
    c != '|' && c != '\n'
  }

  /** A character a prefix/suffix token may hold: not its end (`:` or `+`) and not a newline. */
  predicate IsTokenChar(c: char)
  {
    c != ':' && c != '+' && c != '\n'
  }

  /** Where `[^|\n]+` started at p stops: the first `|`, newline or the end. */
  function ValueEnd(s: string, p: nat): (q: nat)
    requires p <= |s|
    ensures p <= q <= |s|
    ensures forall i :: p <= i < q ==> IsValueChar(s[i])
    ensures q < |s| ==> !IsValueChar(s[q])
    decreases |s| - p
  {
    if p == |s| || !IsValueChar(s[p]) then p else ValueEnd(s, p + 1)
  }

  /**
   * Where the lazy `(.*?)(?=:|\+)` started at p stops: the first `:` or `+`, if one
   * comes before any newline (`.` does not match a newline); None otherwise.
   */
  function TokenEnd(s: string, p: nat): (r: Option<nat>)
    requires p <= |s|
    ensures r.Some? ==> p <= r.value < |s| && !IsTokenChar(s[r.value]) && s[r.value] != '\n'
    ensures r.Some? ==> forall i :: p <= i < r.value ==> IsTokenChar(s[i])
    decreases |s| - p
  {
    if p == |s| then None
    else if s[p] == ':' || s[p] == '+' then Some(p)
    else if s[p] == '\n' then None
    else TokenEnd(s, p + 1)
  }

  /** `re.sub('|'.join(trans), lambda m: m.group(0).translate(bw_map), s)`, from position p on. */
  function SpanScan(tr: char -> char, s: string, p: nat): string
    requires p <= |s|
    decreases |s| - p
  {
    if p == |s| then []
    else if KeyBefore(s, p) && IsValueChar(s[p]) then
      var q := ValueEnd(s, p);
      TranslateWith(tr, s[p..q]) + SpanScan(tr, s, q)
    else if AffixBefore(s, p) && !PronAt(s, p) && TokenEnd(s, p).Some? && TokenEnd(s, p).value > p then
      var q := TokenEnd(s, p).value;
      TranslateWith(tr, s[p..q]) + SpanScan(tr, s, q)
    else
      [s[p]] + SpanScan(tr, s, p + 1)
  }

  // Reference definitions of which positions the substitution translates,
  // stated per position rather than by the scan.

  /** Position i is in the value of a ROOT:, LEM: or SP: attribute. */
  predicate InValue(s: string, i: nat)
    requires i < |s|
    decreases i
  {
    IsValueChar(s[i]) && (KeyBefore(s, i) || (i > 0 && InValue(s, i - 1)))
  }

  /** Position i is in a run of token characters that starts a non-PRON PREFIX|/SUFFIX| segment. */
  predicate InAffixRun(s: string, i: nat)
    requires i < |s|
    decreases i
  {
    IsTokenChar(s[i]) && ((AffixBefore(s, i) && !PronAt(s, i)) || (i > 0 && InAffixRun(s, i - 1)))
  }

  /** The run of token characters through position i is closed by a `:` or `+`. */
  predicate Closed(s: string, i: nat)
    requires i < |s|
    decreases |s| - i
  {
    i + 1 < |s| && (s[i + 1] == ':' || s[i + 1] == '+' || (s[i + 1] != '\n' && Closed(s, i + 1)))
  }

  /** Position i is translated: an attribute value, or a closed prefix/suffix token. */
  predicate Translated(s: string, i: nat)
    requires i < |s|
  {
    InValue(s, i) || (InAffixRun(s, i) && Closed(s, i))
  }

  /** The character the substitution leaves at position i. */
  function SpanChar(tr: char -> char, s: string, i: nat): char
    requires i < |s|
  {
    if Translated(s, i) then tr(s[i]) else s[i]
  }

  /** The scan may start afresh at p: p does not continue a span begun before it. */
  predicate Boundary(s: string, p: nat)
    requires p <= |s|
  {
    p == 0 || p == |s| ||
    (!(InValue(s, p - 1) && IsValueChar(s[p])) &&
     !(InAffixRun(s, p - 1) && Closed(s, p - 1) && IsTokenChar(s[p])))
  }

  /** No position is both in an attribute value and in a prefix/suffix token. */
  lemma {:induction false} ValueNotAffix(s: string, i: nat)
    requires i < |s|
    ensures !(InValue(s, i) && InAffixRun(s, i))
    decreases i
  {
    if i > 0 && InValue(s, i - 1) && InAffixRun(s, i - 1) {
      ValueNotAffix(s, i - 1);
    }
    if KeyBefore(s, i) {
      assert s[i - 1] == ':' by {
        if EndsAt(s, i, "ROOT:") {
          assert s[i - 5..i][4] == s[i - 1];
        } else if EndsAt(s, i, "LEM:") {
          assert s[i - 4..i][3] == s[i - 1];
        } else {
          assert s[i - 3..i][2] == s[i - 1];
        }
      }
    }
    if AffixBefore(s, i) {
      assert s[i - 1] == '|' by {
        assert s[i - 7..i][6] == s[i - 1];
      }
    }
  }

  /** Every value character from a key on belongs to that key's value. */
  lemma {:induction false} ValueRun(s: string, p: nat, i: nat)
    requires p <= i < |s|
    requires KeyBefore(s, p)
    requires forall k :: p <= k <= i ==> IsValueChar(s[k])
    ensures InValue(s, i)
    decreases i - p
  {
    if i > p {
      ValueRun(s, p, i - 1);
    }
  }

  /** A run of token characters is closed exactly when the lazy match from it succeeds. */
  lemma {:induction false} ClosedTokenEnd(s: string, i: nat)
    requires i < |s| && IsTokenChar(s[i])
    ensures Closed(s, i) <==> TokenEnd(s, i).Some?
    ensures TokenEnd(s, i) == TokenEnd(s, i + 1)
    decreases |s| - i
  {
    if i + 1 < |s| && IsTokenChar(s[i + 1]) {
      ClosedTokenEnd(s, i + 1);
    }
  }

  /** Every character of a token matched at p is in a closed prefix/suffix run. */
  lemma {:induction false} TokenRun(s: string, p: nat, q: nat, i: nat)
    requires p <= i < q <= |s|
    requires AffixBefore(s, p) && !PronAt(s, p)
    requires TokenEnd(s, p) == Some(q)
    ensures InAffixRun(s, i) && Closed(s, i) && TokenEnd(s, i) == Some(q)
    decreases i - p
  {
    if i > p {
      TokenRun(s, p, q, i - 1);
    }
    ClosedTokenEnd(s, i);
  }

  /** A value span found by the scan: wholly translated, and the scan may restart after it. */
  lemma KeySpan(s: string, p: nat)
    requires p < |s| && KeyBefore(s, p) && IsValueChar(s[p])
    ensures p < ValueEnd(s, p) && Boundary(s, ValueEnd(s, p))
    ensures forall i :: p <= i < ValueEnd(s, p) ==> Translated(s, i)
  {
    var q := ValueEnd(s, p);
    forall i | p <= i < q ensures InValue(s, i) {
      ValueRun(s, p, i);
    }
    ValueNotAffix(s, q - 1);
  }

  /** A token span found by the scan: wholly translated, and the scan may restart after it. */
  lemma TokenSpan(s: string, p: nat)
    requires p < |s| && AffixBefore(s, p) && !PronAt(s, p)
    requires TokenEnd(s, p).Some? && TokenEnd(s, p).value > p
    ensures Boundary(s, TokenEnd(s, p).value)
    ensures forall i :: p <= i < TokenEnd(s, p).value ==> Translated(s, i)
  {
    var q := TokenEnd(s, p).value;
    forall i | p <= i < q ensures InAffixRun(s, i) && Closed(s, i) {
      TokenRun(s, p, q, i);
    }
    ValueNotAffix(s, q - 1);
  }

  /** A character the scan copies is not translated, and the scan may restart after it. */
  lemma CopiedChar(s: string, p: nat)
    requires p < |s| && Boundary(s, p)
    requires !(KeyBefore(s, p) && IsValueChar(s[p]))
    requires !(AffixBefore(s, p) && !PronAt(s, p) && TokenEnd(s, p).Some? && TokenEnd(s, p).value > p)
    ensures !Translated(s, p) && Boundary(s, p + 1)
  {
    if IsTokenChar(s[p]) {
      ClosedTokenEnd(s, p);
      if p > 0 && InAffixRun(s, p - 1) {
        ClosedTokenEnd(s, p - 1);
      }
    }
  }

  /** The scan from p yields `SpanChar` at every position from p on. */
  predicate ScanRightFrom(tr: char -> char, s: string, p: nat)
    requires p <= |s|
  {
    |SpanScan(tr, s, p)| == |s| - p &&
    forall k :: 0 <= k < |s| - p ==> SpanScan(tr, s, p)[k] == SpanChar(tr, s, p + k)
  }

  /** A translated span [p, q) in front of a correct scan from q makes the scan from p correct. */
  lemma SpanThenScan(tr: char -> char, s: string, p: nat, q: nat)
    requires p < q <= |s|
    requires forall i :: p <= i < q ==> Translated(s, i)
    requires ScanRightFrom(tr, s, q)
    requires SpanScan(tr, s, p) == TranslateWith(tr, s[p..q]) + SpanScan(tr, s, q)
    ensures ScanRightFrom(tr, s, p)
  {
    var r := SpanScan(tr, s, p);
    var rest := SpanScan(tr, s, q);
    forall k | 0 <= k < |s| - p ensures r[k] == SpanChar(tr, s, p + k) {
      if k < q - p {
        assert r[k] == TranslateWith(tr, s[p..q])[k];
      } else {
        assert r[k] == rest[k - (q - p)];
      }
    }
  }

  /** The scan's step at a value span. */
  lemma ScanAtKey(tr: char -> char, s: string, p: nat)
    requires p < |s| && KeyBefore(s, p) && IsValueChar(s[p])
    ensures SpanScan(tr, s, p) == TranslateWith(tr, s[p..ValueEnd(s, p)]) + SpanScan(tr, s, ValueEnd(s, p))
  {
  }

  /** The scan's step at a prefix/suffix token. */
  lemma ScanAtToken(tr: char -> char, s: string, p: nat)
    requires p < |s| && !(KeyBefore(s, p) && IsValueChar(s[p]))
    requires AffixBefore(s, p) && !PronAt(s, p) && TokenEnd(s, p).Some? && TokenEnd(s, p).value > p
    ensures SpanScan(tr, s, p) == TranslateWith(tr, s[p..TokenEnd(s, p).value]) + SpanScan(tr, s, TokenEnd(s, p).value)
  {
  }

  /** One step of the scan at a value span. */
  lemma KeyStep(tr: char -> char, s: string, p: nat)
    requires p < |s| && KeyBefore(s, p) && IsValueChar(s[p])
    requires ValueEnd(s, p) <= |s| && ScanRightFrom(tr, s, ValueEnd(s, p))
    ensures ScanRightFrom(tr, s, p)
  {
    var q := ValueEnd(s, p);
    KeySpan(s, p);
    ScanAtKey(tr, s, p);
    SpanThenScan(tr, s, p, q);
  }

  /** One step of the scan at a prefix/suffix token. */
  lemma TokenStep(tr: char -> char, s: string, p: nat)
    requires p < |s| && !(KeyBefore(s, p) && IsValueChar(s[p]))
    requires AffixBefore(s, p) && !PronAt(s, p) && TokenEnd(s, p).Some? && TokenEnd(s, p).value > p
    requires ScanRightFrom(tr, s, TokenEnd(s, p).value)
    ensures ScanRightFrom(tr, s, p)
  {
    var q := TokenEnd(s, p).value;
    TokenSpan(s, p);
    ScanAtToken(tr, s, p);
    SpanThenScan(tr, s, p, q);
  }

  /** One step of the scan at a copied character. */
  lemma CopyStep(tr: char -> char, s: string, p: nat)
    requires p < |s| && Boundary(s, p)
    requires !(KeyBefore(s, p) && IsValueChar(s[p]))
    requires !(AffixBefore(s, p) && !PronAt(s, p) && TokenEnd(s, p).Some? && TokenEnd(s, p).value > p)
    requires ScanRightFrom(tr, s, p + 1)
    ensures ScanRightFrom(tr, s, p)
  {
    CopiedChar(s, p);
    var r := SpanScan(tr, s, p);
    assert r == [s[p]] + SpanScan(tr, s, p + 1);
    forall k | 0 <= k < |s| - p ensures r[k] == SpanChar(tr, s, p + k) {
      if k > 0 {
        assert r[k] == SpanScan(tr, s, p + 1)[k - 1];
      }
    }
  }

  /** The scan from a boundary translates exactly the positions `Translated` names. */
  lemma {:induction false} ScanCorrect(tr: char -> char, s: string, p: nat)
    requires p <= |s| && Boundary(s, p)
    ensures ScanRightFrom(tr, s, p)
    decreases |s| - p
  {
    if p == |s| {
    } else if KeyBefore(s, p) && IsValueChar(s[p]) {
      KeySpan(s, p);
      ScanCorrect(tr, s, ValueEnd(s, p));
      KeyStep(tr, s, p);
    } else if AffixBefore(s, p) && !PronAt(s, p) && TokenEnd(s, p).Some? && TokenEnd(s, p).value > p {
      TokenSpan(s, p);
      ScanCorrect(tr, s, TokenEnd(s, p).value);
      TokenStep(tr, s, p);
    } else {
      CopiedChar(s, p);
      ScanCorrect(tr, s, p + 1);
      CopyStep(tr, s, p);
    }
  }

  /**
   * The substitution on a whole feature field: the same length, every translated
   * position (attribute value or closed prefix/suffix token) through the table,
   * every other position as it was.
   */
  function TranslateSpans(tr: char -> char, s: string): (r: string)
    ensures |r| == |s|
    ensures forall i :: 0 <= i < |s| ==> r[i] == (if Translated(s, i) then tr(s[i]) else s[i])
  {
    ScanCorrect(tr, s, 0);
    SpanScan(tr, s, 0)
  }
}
