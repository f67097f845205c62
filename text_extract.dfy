/**
 * `extraer_texto_pdf`: the text of a PDF is the text of its pages, those that
 * have any, joined by line breaks. The PDF library is abstracted as the
 * sequence of what `page.extract_text()` returns per page, plus the page (if
 * any) at which opening or reading the document raises.
 */
module TextExtract {
  import opened Wrappers

  /** `if texto:` in Python: the page has text and it is not empty. */
  predicate IsTruthy(page: Option<string>) {
    page.Some? && page.value != ""
  }

  /** The texts of the truthy pages, in page order. */
  function Truthy(pages: seq<Option<string>>): (parts: seq<string>)
    ensures |parts| <= |pages|
    ensures forall k :: 0 <= k < |parts| ==> parts[k] != ""
  {
    if pages == [] then []
    else
      var last := pages[|pages| - 1];
      Truthy(pages[..|pages| - 1]) + (if IsTruthy(last) then [last.value] else [])
  }

  /** `"\n".join(parts)`. */
  function JoinLines(parts: seq<string>): string {
    if parts == [] then ""
    else if |parts| == 1 then parts[0]
    else parts[0] + "\n" + JoinLines(parts[1..])
  }

  /**
   * How many pages are read: all of them, or those before the page at which
   * the library raises (the exception is caught and the loop left).
   */
  function PagesRead(pages: seq<Option<string>>, failAt: Option<nat>): (n: nat)
    ensures n <= |pages|
    ensures failAt.None? ==> n == |pages|
    ensures failAt.Some? && failAt.value <= |pages| ==> n == failAt.value
  {
    match failAt
    case None => |pages|
    case Some(k) => if k < |pages| then k else |pages|
  }

  /** The returned string: the collected parts joined by line breaks. */
  function ExtractedText(pages: seq<Option<string>>, failAt: Option<nat>): string {
    JoinLines(Truthy(pages[..PagesRead(pages, failAt)]))
  }

  /** The loop of `extraer_texto_pdf`, with the exception handler that still returns what was collected. */
  method ExtractText(pages: seq<Option<string>>, failAt: Option<nat>) returns (text: string)
    ensures text == ExtractedText(pages, failAt)
  {
    var parts: seq<string> := [];
    var i := 0;
    while i < |pages|
      invariant 0 <= i <= PagesRead(pages, failAt)
      invariant parts == Truthy(pages[..i])
    {
      if failAt == Some(i) {
        break;
      }
      var page := pages[i];
      if page.Some? && page.value != "" {
        parts := parts + [page.value];
      }
      assert pages[..i + 1][..i] == pages[..i];
      i := i + 1;
    }
    assert i == PagesRead(pages, failAt);
    text := JoinLines(parts);
  }

  /** A failure at page `k` gives the text of pages `0 .. k-1` read without failure. */
  lemma FailureAtPage(pages: seq<Option<string>>, k: nat)
    requires k <= |pages|
    ensures ExtractedText(pages, Some(k)) == ExtractedText(pages[..k], None)
  {
    assert pages[..k][..|pages[..k]|] == pages[..k];
  }

  /** Collecting two runs of pages one after the other collects the parts of each, in order. */
  lemma {:induction false} TruthyAppend(a: seq<Option<string>>, b: seq<Option<string>>)
    ensures Truthy(a + b) == Truthy(a) + Truthy(b)
    decreases |b|
  {
    if b == [] {
      assert a + b == a;
    } else {
      var b' := b[..|b| - 1];
      assert (a + b)[..|a + b| - 1] == a + b';
      TruthyAppend(a, b');
    }
  }

  /** Pages without text add nothing to the result, not even a line break. */
  lemma BlankPageAddsNothing(a: seq<Option<string>>, blank: Option<string>, b: seq<Option<string>>)
    requires !IsTruthy(blank)
    ensures ExtractedText(a + [blank] + b, None) == ExtractedText(a + b, None)
  {
    var withBlank := a + [blank] + b;
    assert Truthy([blank]) == [] by {
      assert [blank][..0] == [];
    }
    calc {
      Truthy(withBlank);
      { TruthyAppend(a + [blank], b); }
      Truthy(a + [blank]) + Truthy(b);
      { TruthyAppend(a, [blank]); }
      Truthy(a) + Truthy(b);
      { TruthyAppend(a, b); }
      Truthy(a + b);
    }
    assert withBlank[..|withBlank|] == withBlank;
    assert (a + b)[..|a + b|] == a + b;
  }

  /** Joining more parts only extends the text. */
  lemma {:induction false} JoinLinesPrefix(a: seq<string>, b: seq<string>)
    ensures JoinLines(a) <= JoinLines(a + b)
  {
    if |a| >= 2 {
      assert (a + b)[1..] == a[1..] + b;
      JoinLinesPrefix(a[1..], b);
    } else if |a| == 1 && b != [] {
      assert (a + b)[0] == a[0];
    } else if |a| == 1 {
      assert a + b == a;
    }
  }

  /** Joining non-empty parts gives the empty string only when there are no parts. */
  lemma JoinLinesEmpty(parts: seq<string>)
    requires forall k :: 0 <= k < |parts| ==> parts[k] != ""
    ensures JoinLines(parts) == "" <==> parts == []
  {
    if parts != [] {
      assert |JoinLines(parts)| >= |parts[0]|;
    }
  }

  /**
   * A failure while reading keeps what was gathered before it: the text is a
   * prefix of the full text, and it is empty only when no page before the
   * failure had text.
   */
  lemma FailureKeepsCollected(pages: seq<Option<string>>, k: nat)
    ensures ExtractedText(pages, Some(k)) <= ExtractedText(pages, None)
    ensures ExtractedText(pages, Some(k)) == "" <==> Truthy(pages[..PagesRead(pages, Some(k))]) == []
  {
    var n := PagesRead(pages, Some(k));
    assert pages == pages[..n] + pages[n..];
    TruthyAppend(pages[..n], pages[n..]);
    assert pages[..|pages|] == pages;
    JoinLinesPrefix(Truthy(pages[..n]), Truthy(pages[n..]));
    JoinLinesEmpty(Truthy(pages[..n]));
  }

  /** Collected parts are empty exactly when none of the pages read had text. */
  lemma {:induction false} TruthyEmpty(pages: seq<Option<string>>)
    ensures Truthy(pages) == [] <==> forall k :: 0 <= k < |pages| ==> !IsTruthy(pages[k])
    decreases |pages|
  {
    if pages != [] {
      var init := pages[..|pages| - 1];
      TruthyEmpty(init);
      assert forall k :: 0 <= k < |init| ==> init[k] == pages[k];
    }
  }

  /** `str.split("\n")`. */
  function SplitLines(s: string): (r: seq<string>)
    ensures r != []
  {
    if s == [] then [[]]
    else
      var rest := SplitLines(s[1..]);
      if s[0] == '\n' then [[]] + rest else [[s[0]] + rest[0]] + rest[1..]
  }

  /** A line without line breaks splits into itself. */
  lemma {:induction false} SplitLine(line: string)
    requires forall k :: 0 <= k < |line| ==> line[k] != '\n'
    ensures SplitLines(line) == [line]
  {
    if line != [] {
      SplitLine(line[1..]);
      assert [line[0]] + line[1..] == line;
    }
  }

  /** A line followed by a line break splits off as the first line. */
  lemma {:induction false} SplitFirstLine(line: string, rest: string)
    requires forall k :: 0 <= k < |line| ==> line[k] != '\n'
    ensures SplitLines(line + "\n" + rest) == [line] + SplitLines(rest)
  {
    if line == [] {
      assert line + "\n" + rest == "\n" + rest;
      assert ("\n" + rest)[1..] == rest;
    } else {
      SplitFirstLine(line[1..], rest);
      assert (line + "\n" + rest)[1..] == line[1..] + "\n" + rest;
      assert [line[0]] + line[1..] == line;
    }
  }

  /**
   * Splitting the joined text at line breaks gives the parts back, when the
   * parts have no line breaks of their own.
   */
  lemma {:induction false} SplitJoin(parts: seq<string>)
    requires parts != []
    requires forall i, k :: 0 <= i < |parts| && 0 <= k < |parts[i]| ==> parts[i][k] != '\n'
    ensures SplitLines(JoinLines(parts)) == parts
  {
    if |parts| == 1 {
      SplitLine(parts[0]);
    } else {
      SplitFirstLine(parts[0], JoinLines(parts[1..]));
      SplitJoin(parts[1..]);
    }
  }
}
