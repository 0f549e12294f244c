/**
 * The rule engine of scripts/apply-changes.py: the corpus text is threaded
 * through the list of fixes, one rule at a time and in list order. A literal rule
 * is Python's `str.replace` and is modelled concretely; a regular-expression rule
 * is `re.sub` with a pattern and a replacement, modelled as an opaque function from
 * the whole text to the new text, or to None where the replacement raised.
 */
module Rewrite {
  import opened Wrappers
  import opened PyStr

  datatype Rule =
    | Literal(pat: string, rep: string)
    | Regex(pat: string, sub: string -> Option<string>)

  /** `p` occurs in `t` starting at index `i`. */
  predicate OccursAt(t: string, p: string, i: int)
  {
    0 <= i && i + |p| <= |t| && t[i..i + |p|] == p
  }

  predicate Occurs(t: string, p: string)
  {
    exists i :: 0 <= i <= |t| && OccursAt(t, p, i)
  }

  /** `t.replace("", r)`: Python puts `r` before every character and once at the end. */
  function Interleave(t: string, r: string): string
  {
    if t == [] then r else r + [t[0]] + Interleave(t[1..], r)
  }

  /** The empty-pattern replacement inserts `r` once more than `t` has characters. */
  lemma {:induction false} InterleaveLength(t: string, r: string)
    ensures |Interleave(t, r)| == |t| + (|t| + 1) * |r|
  {
    if t != [] {
      InterleaveLength(t[1..], r);
    }
  }

  /**
   * `t.replace(p, r)`: scanning left to right, every occurrence of `p` that does not
   * overlap one already replaced becomes `r`.
   */
  function ReplaceAll(t: string, p: string, r: string): string
    decreases |t|
  {
    if p == [] then Interleave(t, r)
    else if |t| < |p| then t
    else if t[..|p|] == p then r + ReplaceAll(t[|p|..], p, r)
    else [t[0]] + ReplaceAll(t[1..], p, r)
  }

  /**
   * The scan is leftmost-first: everything before the first occurrence is copied,
   * that occurrence becomes `r`, and the scan resumes right after it.
   */
  lemma ReplaceLeftmost(t: string, p: string, r: string, i: nat)
    requires p != []
    requires OccursAt(t, p, i)
    requires forall j :: 0 <= j < i ==> !OccursAt(t, p, j)
    ensures ReplaceAll(t, p, r) == t[..i] + r + ReplaceAll(t[i + |p|..], p, r)
  {
    CopyBefore(t, p, r, i);
    var u := t[i..];
    assert u[..|p|] == p;
    assert u[|p|..] == t[i + |p|..];
    assert ReplaceAll(u, p, r) == r + ReplaceAll(t[i + |p|..], p, r);
    Assoc(t[..i], r, ReplaceAll(t[i + |p|..], p, r));
  }

  /** Concatenation is associative. */
  lemma Assoc(a: string, b: string, c: string)
    ensures a + (b + c) == a + b + c
  {
  }

  /** Up to the first occurrence, the scan copies the text as it is. */
  lemma {:induction false} CopyBefore(t: string, p: string, r: string, k: nat)
    requires p != [] && k + |p| <= |t|
    requires forall j :: 0 <= j < k ==> !OccursAt(t, p, j)
    ensures ReplaceAll(t, p, r) == t[..k] + ReplaceAll(t[k..], p, r)
  {
    if k == 0 {
      assert t[0..] == t;
      EmptyPrefix(t, ReplaceAll(t, p, r));
    } else {
      CopyBefore(t, p, r, k - 1);
      assert !OccursAt(t, p, k - 1);
      ReplaceCopiesChar(t, p, r, k);
      PrefixRegroup(t, k, ReplaceAll(t[k..], p, r));
    }
  }

  lemma EmptyPrefix(t: string, x: string)
    ensures t[..0] + x == x
  {
  }

  /** Where the pattern does not start at `k - 1`, the character there is copied. */
  lemma ReplaceCopiesChar(t: string, p: string, r: string, k: nat)
    requires p != [] && 1 <= k && k - 1 + |p| <= |t|
    requires !OccursAt(t, p, k - 1)
    ensures ReplaceAll(t[k - 1..], p, r) == [t[k - 1]] + ReplaceAll(t[k..], p, r)
  {
    var u := t[k - 1..];
    assert u[..|p|] == t[k - 1..k - 1 + |p|];
    assert u[1..] == t[k..];
  }

  /** Moving one character from the copied tail onto the copied prefix. */
  lemma PrefixRegroup(t: string, k: nat, x: string)
    requires 1 <= k <= |t|
    ensures t[..k - 1] + ([t[k - 1]] + x) == t[..k] + x
  {
    assert t[..k - 1] + [t[k - 1]] == t[..k];
  }

  /** A text in which the pattern does not occur comes back unchanged. */
  lemma {:induction false} ReplaceAbsent(t: string, p: string, r: string)
    requires p != []
    requires !Occurs(t, p)
    ensures ReplaceAll(t, p, r) == t
    decreases |t|
  {
    if |t| >= |p| {
      assert !OccursAt(t, p, 0);
      if !Occurs(t[1..], p) {
        ReplaceAbsent(t[1..], p, r);
      } else {
        var j :| 0 <= j <= |t[1..]| && OccursAt(t[1..], p, j);
        assert t[1..][j..j + |p|] == t[j + 1..j + 1 + |p|];
        assert OccursAt(t, p, j + 1);
      }
    }
  }

  /** Replacing a pattern by itself changes nothing. */
  lemma {:induction false} ReplaceSelf(t: string, p: string)
    requires p != []
    ensures ReplaceAll(t, p, p) == t
    decreases |t|
  {
    if |t| >= |p| {
      if t[..|p|] == p {
        ReplaceSelf(t[|p|..], p);
        assert p + t[|p|..] == t;
      } else {
        ReplaceSelf(t[1..], p);
        assert [t[0]] + t[1..] == t;
      }
    }
  }

  /** A shorter replacement never lengthens the text, a longer one never shortens it. */
  lemma {:induction false} ReplaceLength(t: string, p: string, r: string)
    requires p != []
    ensures |r| <= |p| ==> |ReplaceAll(t, p, r)| <= |t|
    ensures |r| >= |p| ==> |ReplaceAll(t, p, r)| >= |t|
    decreases |t|
  {
    if |t| >= |p| {
      if t[..|p|] == p {
        ReplaceLength(t[|p|..], p, r);
      } else {
        ReplaceLength(t[1..], p, r);
      }
    }
  }

  /** Replacing an occurring pattern by a different string always changes the text. */
  lemma {:induction false} ReplaceChanges(t: string, p: string, r: string, i: int)
    requires p != [] && p != r
    requires OccursAt(t, p, i)
    ensures ReplaceAll(t, p, r) != t
    decreases |t|
  {
    var res := ReplaceAll(t, p, r);
    if t[..|p|] == p {
      var rest := t[|p|..];
      ReplaceLength(rest, p, r);
      assert res == r + ReplaceAll(rest, p, r);
      assert t == p + rest;
    } else {
      assert i != 0;
      assert t[1..][i - 1..i - 1 + |p|] == t[i..i + |p|];
      ReplaceChanges(t[1..], p, r, i - 1);
    }
  }

  /**
   * A literal rule with a non-empty pattern leaves the text as it was exactly when
   * the pattern does not occur in it or the rule replaces the pattern by itself.
   */
  lemma ReplaceUnchangedIff(t: string, p: string, r: string)
    requires p != []
    ensures ReplaceAll(t, p, r) == t <==> (p == r || !Occurs(t, p))
  {
    if p == r {
      ReplaceSelf(t, p);
    } else if !Occurs(t, p) {
      ReplaceAbsent(t, p, r);
    } else {
      var i :| OccursAt(t, p, i);
      ReplaceChanges(t, p, r, i);
    }
  }

  /**
   * The conditions under which one pass of a literal rule leaves no occurrence of
   * its pattern: the first character of the pattern occurs nowhere else in the
   * pattern or the replacement, the replacement starts with it, and the pattern is
   * not a prefix of the replacement.
   */
  predicate SelfClearing(p: string, r: string)
  {
    && p != [] && |p| <= |r|
    && r[0] == p[0]
    && p[0] !in p[1..]
    && p[0] !in r[1..]
    && r[..|p|] != p
  }

  /**
   * When the output of the replacement starting at `u` begins with a string free of
   * the pattern's first character, the input begins with that same string.
   */
  lemma {:induction false} OutputPrefixFromInput(u: string, p: string, r: string, q: string)
    requires SelfClearing(p, r)
    requires p[0] !in q
    requires StartsWith(ReplaceAll(u, p, r), q)
    ensures StartsWith(u, q)
    decreases |u|
  {
    if q != [] && |u| >= |p| {
      var out := ReplaceAll(u, p, r);
      if u[..|p|] != p {
        var rest := ReplaceAll(u[1..], p, r);
        assert out == [u[0]] + rest;
        ConsStartsWith(u[0], rest, q);
        OutputPrefixFromInput(u[1..], p, r, q[1..]);
        ConsStartsWith(u[0], u[1..], q);
        assert [u[0]] + u[1..] == u;
      }
    }
  }

  /** A prefix of a text with a known first character. */
  lemma ConsStartsWith(c: char, x: string, q: string)
    requires q != []
    ensures StartsWith([c] + x, q) <==> q[0] == c && StartsWith(x, q[1..])
  {
    if |q| <= |x| + 1 {
      assert ([c] + x)[..|q|] == [c] + x[..|q| - 1];
      if q[0] == c && StartsWith(x, q[1..]) {
        assert q == [q[0]] + q[1..];
      }
    }
  }

  /** Under `SelfClearing`, a replacement followed by pattern-free text is pattern-free. */
  lemma ReplacementThenClear(p: string, r: string, rest: string)
    requires SelfClearing(p, r)
    requires !Occurs(rest, p)
    ensures !Occurs(r + rest, p)
  {
    var out := r + rest;
    forall j | 0 <= j <= |out| && OccursAt(out, p, j) ensures false {
      if j >= |r| {
        assert out[j..j + |p|] == rest[j - |r|..j - |r| + |p|];
        assert OccursAt(rest, p, j - |r|);
      }
    }
  }

  /**
   * Under `SelfClearing`, the output starting at a copied character starts with the
   * pattern only if the input did.
   */
  lemma CopiedStart(p: string, r: string, u: string, c: char)
    requires SelfClearing(p, r)
    requires StartsWith([c] + ReplaceAll(u, p, r), p)
    ensures StartsWith([c] + u, p)
  {
    var rest := ReplaceAll(u, p, r);
    var out := [c] + rest;
    assert out[1..|p|] == out[..|p|][1..];
    assert rest[..|p| - 1] == out[1..|p|];
    OutputPrefixFromInput(u, p, r, p[1..]);
    assert ([c] + u)[..|p|] == [c] + u[..|p| - 1];
  }

  /** A character followed by pattern-free text is pattern-free unless it starts the pattern. */
  lemma CopyThenClear(p: string, c: char, rest: string)
    requires !StartsWith([c] + rest, p)
    requires !Occurs(rest, p)
    ensures !Occurs([c] + rest, p)
  {
    var out := [c] + rest;
    forall j | 0 < j <= |out| && OccursAt(out, p, j) ensures false {
      assert out[j..j + |p|] == rest[j - 1..j - 1 + |p|];
      assert OccursAt(rest, p, j - 1);
    }
  }

  /** Under `SelfClearing`, no occurrence of the pattern survives the replacement. */
  lemma {:induction false} NoOccurrenceRemains(t: string, p: string, r: string)
    requires SelfClearing(p, r)
    ensures !Occurs(ReplaceAll(t, p, r), p)
    decreases |t|
  {
    if |t| < |p| {
      assert ReplaceAll(t, p, r) == t;
    } else if t[..|p|] == p {
      NoOccurrenceRemains(t[|p|..], p, r);
      ReplacementThenClear(p, r, ReplaceAll(t[|p|..], p, r));
    } else {
      NoOccurrenceRemains(t[1..], p, r);
      assert [t[0]] + t[1..] == t;
      var rest := ReplaceAll(t[1..], p, r);
      if StartsWith([t[0]] + rest, p) {
        CopiedStart(p, r, t[1..], t[0]);
        assert false;
      }
      CopyThenClear(p, t[0], rest);
    }
  }

  /** The root fix `ROOT:لالا` → `ROOT:لؤلؤ`. */
  const RootFixPattern: string := "ROOT:\U{644}\U{627}\U{644}\U{627}"
  const RootFixReplacement: string := "ROOT:\U{644}\U{624}\U{644}\U{624}"

  /** After the root fix has run, the text holds no `ROOT:لالا` at all. */
  lemma RootFixComplete(t: string)
    ensures !Occurs(ApplyRule(Literal(RootFixPattern, RootFixReplacement), t).value, RootFixPattern)
  {
    assert RootFixReplacement[..|RootFixPattern|] != RootFixPattern by {
      assert RootFixReplacement[6] != RootFixPattern[6];
    }
    NoOccurrenceRemains(t, RootFixPattern, RootFixReplacement);
  }

  /** One rule applied to the whole text; None where the replacement raised. */
  function ApplyRule(rule: Rule, text: string): Option<string>
  {
    match rule
    case Literal(pat, rep) => Some(ReplaceAll(text, pat, rep))
    case Regex(_, sub) => sub(text)
  }

  /** The rules in list order, each on the whole output of the one before. */
  function ApplyRules(rules: seq<Rule>, text: string): Option<string>
  {
    if rules == [] then Some(text)
    else
      match ApplyRules(rules[..|rules| - 1], text)
      case None => None
      case Some(t) => ApplyRule(rules[|rules| - 1], t)
  }

  /** Running two lists of rules one after the other is running their concatenation. */
  lemma {:induction false} ApplyRulesAppend(a: seq<Rule>, b: seq<Rule>, text: string)
    ensures ApplyRules(a + b, text) ==
              match ApplyRules(a, text)
              case None => None
              case Some(t) => ApplyRules(b, t)
  {
    if b == [] {
      assert a + b == a;
    } else {
      var b' := b[..|b| - 1];
      assert (a + b)[..|a + b| - 1] == a + b';
      ApplyRulesAppend(a, b', text);
    }
  }

  /** The first rule sees the input, the remaining rules see its output. */
  lemma ApplyRulesFirst(rule: Rule, rest: seq<Rule>, text: string)
    ensures ApplyRules([rule] + rest, text) ==
              match ApplyRule(rule, text)
              case None => None
              case Some(t) => ApplyRules(rest, t)
  {
    ApplyRulesAppend([rule], rest, text);
    assert [rule][..0] == [];
  }

  /** One more rule of the list. */
  lemma ApplyRulesStep(rules: seq<Rule>, k: nat, text: string)
    requires k < |rules|
    ensures ApplyRules(rules[..k + 1], text) ==
              match ApplyRules(rules[..k], text)
              case None => None
              case Some(t) => ApplyRule(rules[k], t)
  {
    assert rules[..k + 1][..k] == rules[..k];
  }

  /** Once a rule has raised, the whole list has no output. */
  lemma ApplyRulesStuck(rules: seq<Rule>, k: nat, text: string)
    requires k <= |rules|
    requires ApplyRules(rules[..k], text).None?
    ensures ApplyRules(rules, text).None?
  {
    ApplyRulesAppend(rules[..k], rules[k..], text);
    assert rules[..k] + rules[k..] == rules;
  }

  /**
   * The driver loop: announce each rule's pattern, then apply it to the whole text.
   * On success every pattern was announced in order and the text is the fold of all
   * rules; when a replacement raises, the announcements stop at the rule that raised
   * and there is no output.
   */
  method RunFixes(rules: seq<Rule>, text: string) returns (log: seq<string>, result: Option<string>)
    ensures result == ApplyRules(rules, text)
    ensures |log| <= |rules|
    ensures forall i :: 0 <= i < |log| ==> log[i] == rules[i].pat
    ensures result.Some? ==> |log| == |rules|
    ensures result.None? ==>
              |log| >= 1 && ApplyRules(rules[..|log| - 1], text).Some? && ApplyRules(rules[..|log|], text).None?
  {
    var current := text;
    log := [];
    var k := 0;
    while k < |rules|
      invariant 0 <= k <= |rules|
      invariant |log| == k
      invariant forall i :: 0 <= i < k ==> log[i] == rules[i].pat
      invariant ApplyRules(rules[..k], text) == Some(current)
    {
      var fix := rules[k];
      log := log + [fix.pat];
      ApplyRulesStep(rules, k, text);
      if fix.Literal? {
        current := ReplaceAll(current, fix.pat, fix.rep);
      } else {
        var next := fix.sub(current);
        if next.None? {
          ApplyRulesStuck(rules, k + 1, text);
          result := None;
          return;
        }
        current := next.value;
      }
      k := k + 1;
    }
    assert rules[..k] == rules;
    result := Some(current);
  }
}
