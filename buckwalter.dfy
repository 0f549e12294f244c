/**
 * The Buckwalter-to-Arabic transliteration table of scripts/bw-to-ar.py (`bw`
 * and `bw_map`) and its per-character translation, `str.translate`.
 */
module Buckwalter {
  import opened Wrappers
  import opened PyStr

  /**
   * The `bw` dictionary: Some(arabic) for each of its 60 Buckwalter keys, None for
   * every other character. Written as a match on the key, one case per entry in
   * the dictionary's own order; the Arabic values are given by code point.
   */
  function BwTable(c: char): Option<char>
  {
    match c
    case '\'' => Some('\U{0621}')
    case '>' => Some('\U{0623}')
    case '&' => Some('\U{0624}')
    case '<' => Some('\U{0625}')
    case '}' => Some('\U{0626}')
    case 'A' => Some('\U{0627}')
    case 'b' => Some('\U{0628}')
    case 'p' => Some('\U{0629}')
    case 't' => Some('\U{062A}')
    case 'v' => Some('\U{062B}')
    case 'j' => Some('\U{062C}')
    case 'H' => Some('\U{062D}')
    case 'x' => Some('\U{062E}')
    case 'd' => Some('\U{062F}')
    case '*' => Some('\U{0630}')
    case 'r' => Some('\U{0631}')
    case 'z' => Some('\U{0632}')
    case 's' => Some('\U{0633}')
    case '$' => Some('\U{0634}')
    case 'S' => Some('\U{0635}')
    case 'D' => Some('\U{0636}')
    case 'T' => Some('\U{0637}')
    case 'Z' => Some('\U{0638}')
    case 'E' => Some('\U{0639}')
    case 'g' => Some('\U{063A}')
    case '_' => Some('\U{0640}')
    case 'f' => Some('\U{0641}')
    case 'q' => Some('\U{0642}')
    case 'k' => Some('\U{0643}')
    case 'l' => Some('\U{0644}')
    case 'm' => Some('\U{0645}')
    case 'n' => Some('\U{0646}')
    case 'h' => Some('\U{0647}')
    case 'w' => Some('\U{0648}')
    case 'Y' => Some('\U{0649}')
    case 'y' => Some('\U{064A}')
    case 'F' => Some('\U{064B}')
    case 'N' => Some('\U{064C}')
    case 'K' => Some('\U{064D}')
    case 'a' => Some('\U{064E}')
    case 'u' => Some('\U{064F}')
    case 'i' => Some('\U{0650}')
    case '~' => Some('\U{0651}')
    case 'o' => Some('\U{0652}')
    case '^' => Some('\U{0653}')
    case '#' => Some('\U{0654}')
    case '`' => Some('\U{0670}')
    case '{' => Some('\U{0671}')
    case ':' => Some('\U{06DC}')
    case '@' => Some('\U{06DF}')
    case '"' => Some('\U{06E0}')
    case '[' => Some('\U{06E2}')
    case ';' => Some('\U{06E3}')
    case ',' => Some('\U{06E5}')
    case '.' => Some('\U{06E6}')
    case '!' => Some('\U{06E8}')
    case '-' => Some('\U{06EA}')
    case '+' => Some('\U{06EB}')
    case '%' => Some('\U{06EC}')
    case ']' => Some('\U{06ED}')
    case _ => None
  }

  /**
   * The inverse of `bw`: for each Arabic value, the Buckwalter key that maps to it.
   * It is not in the script; it is the reference against which the table is
   * shown to be one-to-one.
   */
  function BwInverse(a: char): Option<char>
  {
    match a
    case '\U{0621}' => Some('\'')
    case '\U{0623}' => Some('>')
    case '\U{0624}' => Some('&')
    case '\U{0625}' => Some('<')
    case '\U{0626}' => Some('}')
    case '\U{0627}' => Some('A')
    case '\U{0628}' => Some('b')
    case '\U{0629}' => Some('p')
    case '\U{062A}' => Some('t')
    case '\U{062B}' => Some('v')
    case '\U{062C}' => Some('j')
    case '\U{062D}' => Some('H')
    case '\U{062E}' => Some('x')
    case '\U{062F}' => Some('d')
    case '\U{0630}' => Some('*')
    case '\U{0631}' => Some('r')
    case '\U{0632}' => Some('z')
    case '\U{0633}' => Some('s')
    case '\U{0634}' => Some('$')
    case '\U{0635}' => Some('S')
    case '\U{0636}' => Some('D')
    case '\U{0637}' => Some('T')
    case '\U{0638}' => Some('Z')
    case '\U{0639}' => Some('E')
    case '\U{063A}' => Some('g')
    case '\U{0640}' => Some('_')
    case '\U{0641}' => Some('f')
    case '\U{0642}' => Some('q')
    case '\U{0643}' => Some('k')
    case '\U{0644}' => Some('l')
    case '\U{0645}' => Some('m')
    case '\U{0646}' => Some('n')
    case '\U{0647}' => Some('h')
    case '\U{0648}' => Some('w')
    case '\U{0649}' => Some('Y')
    case '\U{064A}' => Some('y')
    case '\U{064B}' => Some('F')
    case '\U{064C}' => Some('N')
    case '\U{064D}' => Some('K')
    case '\U{064E}' => Some('a')
    case '\U{064F}' => Some('u')
    case '\U{0650}' => Some('i')
    case '\U{0651}' => Some('~')
    case '\U{0652}' => Some('o')
    case '\U{0653}' => Some('^')
    case '\U{0654}' => Some('#')
    case '\U{0670}' => Some('`')
    case '\U{0671}' => Some('{')
    case '\U{06DC}' => Some(':')
    case '\U{06DF}' => Some('@')
    case '\U{06E0}' => Some('"')
    case '\U{06E2}' => Some('[')
    case '\U{06E3}' => Some(';')
    case '\U{06E5}' => Some(',')
    case '\U{06E6}' => Some('.')
    case '\U{06E8}' => Some('!')
    case '\U{06EA}' => Some('-')
    case '\U{06EB}' => Some('+')
    case '\U{06EC}' => Some('%')
    case '\U{06ED}' => Some(']')
    case _ => None
  }

  /** Every key is an ASCII character and every value lies in the Arabic block U+0621..U+06ED. */
  lemma BwRanges(c: char)
    requires BwTable(c).Some?
    ensures c < '\U{80}' && '\U{621}' <= BwTable(c).value <= '\U{6ED}'
  {
  }

  /** Looking a key's value up in the inverse gives the key back. */
  lemma BwTableInverse(c: char)
    requires BwTable(c).Some?
    ensures BwInverse(BwTable(c).value) == Some(c)
  {
  }

  /** The table is one-to-one: distinct keys have distinct Arabic values. */
  lemma BwInjective(a: char, b: char)
    requires BwTable(a).Some? && BwTable(b).Some?
    ensures BwTable(a) == BwTable(b) <==> a == b
  {
    BwTableInverse(a);
    BwTableInverse(b);
  }

  /** The field and record delimiters are not keys. */
  lemma DelimitersNotKeys(c: char)
    requires c == '\t' || c == '\n' || c == '|'
    ensures BwTable(c) == None
  {
  }

  /** The digits of locations and part indices are not keys. */
  lemma DigitsNotKeys(c: char)
    requires IsDigit(c)
    ensures BwTable(c) == None
  {
  }

  /** One character through `bw_map`: a key becomes its value, anything else is kept. */
  function Tr(c: char): char
  {
    match BwTable(c)
    case Some(a) => a
    case None => c
  }

  /** One Arabic character back through the inverse table. */
  function Untr(a: char): char
  {
    match BwInverse(a)
    case Some(c) => c
    case None => a
  }

  /** A delimiter is kept by `Tr`, and no other character becomes one. */
  lemma TrDelimiter(c: char, d: char)
    requires d == '\t' || d == '\n' || d == '|'
    ensures Tr(c) == d <==> c == d
  {
    if BwTable(c).Some? {
      BwRanges(c);
    }
  }

  /** `s.translate(bw_map)`: every character mapped on its own, so the length is kept. */
  function Translate(s: string): (r: string)
    ensures |r| == |s|
    ensures forall i :: 0 <= i < |s| ==> r[i] == Tr(s[i])
  {
    TranslateWith(Tr, s)
  }

  /** The inverse translation, Arabic back to Buckwalter. */
  function Untranslate(s: string): (r: string)
    ensures |r| == |s|
    ensures forall i :: 0 <= i < |s| ==> r[i] == Untr(s[i])
  {
    TranslateWith(Untr, s)
  }

  /** Text free of the table's Arabic values comes back unchanged from Arabic. */
  lemma TranslateRoundTrip(s: string)
    requires forall i :: 0 <= i < |s| ==> BwInverse(s[i]) == None
    ensures Untranslate(Translate(s)) == s
  {
    forall i | 0 <= i < |s|
      ensures Untranslate(Translate(s))[i] == s[i]
    {
      if BwTable(s[i]).Some? {
        BwTableInverse(s[i]);
      }
    }
  }

  /** Translation keeps every tab, newline and `|`, and creates none. */
  lemma TranslateKeepsDelimiters(s: string, d: char)
    requires d == '\t' || d == '\n' || d == '|'
    ensures forall i :: 0 <= i < |s| ==> (Translate(s)[i] == d <==> s[i] == d)
    ensures d in Translate(s) <==> d in s
  {
    forall i | 0 <= i < |s|
      ensures Translate(s)[i] == d <==> s[i] == d
    {
      TrDelimiter(s[i], d);
    }
  }
}
