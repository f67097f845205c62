/**
 * The contract-number search `re.search(r"Contrato\s+(\d+)", texto, re.IGNORECASE)`
 * followed by `match.group(1)`, written as a left-to-right scan over the text.
 */
module ContractMatch {
  import opened Wrappers
  import opened PathNames

  /** The literal of the pattern, in lower case; letters are compared case-insensitively. */
  const Keyword: string := "contrato"

  /** The characters Python's `\s` accepts in a `str` pattern (those for which `str.isspace()` holds). */
  predicate IsSpace(c: char) {
    c == ' ' || '\t' <= c <= '\r' || '\U{1C}' <= c <= '\U{1F}'
    || c == '\U{85}' || c == '\U{A0}' || c == '\U{1680}' || '\U{2000}' <= c <= '\U{200A}'
    || c == '\U{2028}' || c == '\U{2029}' || c == '\U{202F}' || c == '\U{205F}' || c == '\U{3000}'
  }

  /** From position `k` of the keyword on, the text at `i` reads the keyword in any mix of upper and lower case. */
  predicate KeywordFrom(s: string, i: nat, k: nat)
    requires k <= |Keyword|
    decreases |Keyword| - k
  {
    k == |Keyword| || (i + k < |s| && LowerChar(s[i + k]) == Keyword[k] && KeywordFrom(s, i, k + 1))
  }

  /** The text at `i` reads `Contrato` in any mix of upper and lower case. */
  predicate KeywordAt(s: string, i: nat) {
    i + |Keyword| <= |s| && KeywordFrom(s, i, 0)
  }

  /**
   * The regular expression's meaning: `Contrato\s+\d+` matches at `i` using `gap`
   * whitespace characters and `len` digits.
   */
  ghost predicate PatternAt(s: string, i: nat, gap: nat, len: nat) {
    KeywordAt(s, i) && 1 <= gap && 1 <= len && i + |Keyword| + gap + len <= |s|
    && (forall k :: i + |Keyword| <= k < i + |Keyword| + gap ==> IsSpace(s[k]))
    && (forall k :: i + |Keyword| + gap <= k < i + |Keyword| + gap + len ==> IsDigitChar(s[k]))
  }

  /** The longest run of characters satisfying `p` that starts at `j` (a greedy `+` or `*`). */
  function Span(p: char -> bool, s: string, j: nat): (n: nat)
    requires j <= |s|
    ensures j + n <= |s|
    ensures forall k :: j <= k < j + n ==> p(s[k])
    ensures j + n == |s| || !p(s[j + n])
    decreases |s| - j
  {
    if j < |s| && p(s[j]) then 1 + Span(p, s, j + 1) else 0
  }

  /** A successful search: where the match starts, its whitespace gap, and group 1. */
  datatype Match = Match(start: nat, gap: nat, group: string)

  /**
   * The regex engine tried at one position: the literal, then as much whitespace
   * as there is, then as many digits as there are. Backtracking cannot help,
   * because giving back whitespace leaves a whitespace character where a digit
   * is needed.
   */
  function MatchAt(s: string, i: nat): (r: Option<Match>)
    requires i <= |s|
    ensures r.Some? ==> r.value.start == i
  {
    if !KeywordAt(s, i) then None
    else
      var j := i + |Keyword|;
      var gap := Span(IsSpace, s, j);
      var len := Span(IsDigitChar, s, j + gap);
      if gap == 0 || len == 0 then None
      else Some(Match(i, gap, s[j + gap .. j + gap + len]))
  }

  /** A match found at `i` is a match of the pattern, and its digit run cannot be extended. */
  lemma MatchAtSound(s: string, i: nat, m: Match)
    requires i <= |s| && MatchAt(s, i) == Some(m)
    ensures PatternAt(s, i, m.gap, |m.group|)
    ensures i + |Keyword| + m.gap + |m.group| == |s| || !IsDigitChar(s[i + |Keyword| + m.gap + |m.group|])
  {
  }

  /** Group 1 of a match found at `i` is the non-empty digit run that follows the whitespace. */
  lemma MatchAtGroup(s: string, i: nat, m: Match)
    requires i <= |s| && MatchAt(s, i) == Some(m)
    ensures m.group != [] && forall k :: 0 <= k < |m.group| ==> IsDigitChar(m.group[k])
    ensures i + |Keyword| + m.gap + |m.group| <= |s|
    ensures s[i + |Keyword| + m.gap .. i + |Keyword| + m.gap + |m.group|] == m.group
  {
  }

  /** A run of `n` characters satisfying `p` lies inside the greedy span. */
  lemma {:induction false} SpanAtLeast(p: char -> bool, s: string, j: nat, n: nat)
    requires j + n <= |s|
    requires forall k :: j <= k < j + n ==> p(s[k])
    ensures n <= Span(p, s, j)
    decreases n
  {
    if n > 0 {
      SpanAtLeast(p, s, j + 1, n - 1);
    }
  }

  /**
   * Every way the pattern can match at `i` is found by `MatchAt`, with the same
   * whitespace gap and a digit run at least as long: the greedy choice.
   */
  lemma MatchAtComplete(s: string, i: nat, gap: nat, len: nat)
    requires PatternAt(s, i, gap, len)
    ensures MatchAt(s, i).Some?
    ensures MatchAt(s, i).value.gap == gap && len <= |MatchAt(s, i).value.group|
  {
    var j := i + |Keyword|;
    SpanAtLeast(IsSpace, s, j, gap);
    assert IsDigitChar(s[j + gap]);
    assert Span(IsSpace, s, j) == gap;
    SpanAtLeast(IsDigitChar, s, j + gap, len);
  }

  /** `re.search`: try every start position from `i` on, left to right. */
  function SearchFrom(s: string, i: nat): Option<Match>
    requires i <= |s|
    decreases |s| - i
  {
    var here := MatchAt(s, i);
    if here.Some? then here
    else if i == |s| then None
    else SearchFrom(s, i + 1)
  }

  /** The scan returns the match at the first position where there is one, and nothing if there is none. */
  lemma {:induction false} SearchFromFirst(s: string, i: nat)
    requires i <= |s|
    ensures SearchFrom(s, i).Some? ==>
      i <= SearchFrom(s, i).value.start <= |s| && MatchAt(s, SearchFrom(s, i).value.start) == SearchFrom(s, i)
    ensures SearchFrom(s, i).Some? ==> forall j :: i <= j < SearchFrom(s, i).value.start ==> MatchAt(s, j).None?
    ensures SearchFrom(s, i).None? ==> forall j :: i <= j <= |s| ==> MatchAt(s, j).None?
    decreases |s| - i
  {
    var here := MatchAt(s, i);
    if here.Some? {
      assert SearchFrom(s, i) == here && here.value.start == i;
    } else if i == |s| {
      assert SearchFrom(s, i) == None;
    } else {
      var r := SearchFrom(s, i + 1);
      assert SearchFrom(s, i) == r;
      SearchFromFirst(s, i + 1);
      var end := if r.Some? then r.value.start else |s| + 1;
      forall j | i <= j < end ensures MatchAt(s, j).None? {
        if j == i {
          assert MatchAt(s, j) == here;
        }
      }
    }
  }

  /** A match the scan returns is the regex engine's result at the position it reports. */
  lemma {:induction false} SearchFromFound(s: string, i: nat)
    requires i <= |s| && SearchFrom(s, i).Some?
    ensures SearchFrom(s, i).value.start <= |s|
    ensures MatchAt(s, SearchFrom(s, i).value.start) == SearchFrom(s, i)
    decreases |s| - i
  {
    if MatchAt(s, i).None? {
      SearchFromFound(s, i + 1);
    }
  }

  function Search(s: string): Option<Match> {
    SearchFrom(s, 0)
  }

  /** `match.group(1) if match else None`: the contract identifier of a text. */
  function ContractId(text: string): Option<string> {
    match Search(text)
    case Some(m) => Some(m.group)
    case None => None
  }

  /**
   * The search finds the leftmost occurrence of the pattern and, there, the
   * greedy reading; it finds nothing exactly when the pattern occurs nowhere.
   */
  lemma SearchLeftmostGreedy(s: string)
    ensures Search(s).Some? ==>
      var m := Search(s).value;
      PatternAt(s, m.start, m.gap, |m.group|)
      && (forall j: nat, g: nat, l: nat :: PatternAt(s, j, g, l) ==> m.start <= j)
      && (forall g: nat, l: nat :: PatternAt(s, m.start, g, l) ==> g == m.gap && l <= |m.group|)
    ensures Search(s).None? <==> forall j: nat, g: nat, l: nat :: !PatternAt(s, j, g, l)
  {
    var r := Search(s);
    SearchFromFirst(s, 0);
    forall j: nat, g: nat, l: nat | PatternAt(s, j, g, l)
      ensures r.Some? && r.value.start <= j
      ensures r.value.start == j ==> g == r.value.gap && l <= |r.value.group|
    {
      MatchAtComplete(s, j, g, l);
    }
    if r.Some? {
      MatchAtSound(s, r.value.start, r.value);
    }
  }

  /** The identifier is a non-empty run of ASCII digits, leading zeros kept. */
  lemma ContractIdIsDigitRun(text: string, id: string)
    requires ContractId(text) == Some(id)
    ensures id != [] && forall k :: 0 <= k < |id| ==> IsDigitChar(id[k])
  {
    var m := Search(text).value;
    SearchFromFound(text, 0);
    MatchAtGroup(text, m.start, m);
  }

  /**
   * The identifier is copied verbatim from the text, right after the whitespace
   * that follows `Contrato` at the match position.
   */
  lemma ContractIdIsCopied(text: string, m: Match)
    requires Search(text) == Some(m)
    ensures ContractId(text) == Some(m.group)
    ensures var p := m.start + |Keyword| + m.gap;
      p + |m.group| <= |text| && text[p .. p + |m.group|] == m.group
  {
    assert SearchFrom(text, 0) == Some(m);
    SearchFromFound(text, 0);
    assert MatchAt(text, m.start) == Some(m);
    MatchAtGroup(text, m.start, m);
  }
}
