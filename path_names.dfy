/**
 * The pieces of Python's `pathlib` and `str` that the renamer relies on:
 * `PurePath.stem`, `PurePath.suffix`, `str.lower()` and `str(int)`.
 * Names are file names inside one directory (no separators).
 */
module PathNames {

  /** `str.rfind(c)`: index of the last occurrence of `c`, or -1. */
  function RFind(s: string, c: char): (r: int)
    ensures -1 <= r < |s|
    ensures r >= 0 ==> s[r] == c
    ensures forall k :: r < k < |s| ==> s[k] != c
    decreases |s|
  {
    if s == [] then -1
    else if s[|s| - 1] == c then |s| - 1
    else RFind(s[..|s| - 1], c)
  }

  /** Whether `name` has a dot that `pathlib` treats as the start of a suffix. */
  predicate HasSuffix(name: string) {
    var i := RFind(name, '.');
    0 < i < |name| - 1
  }

  /**
   * `PurePath.suffix`: a proper ending of the name that starts with a dot and
   * holds no other dot, with at least one character after the dot; empty when
   * no dot follows the first character, or when the name ends in a dot.
   */
  function Suffix(name: string): (r: string)
    ensures r != "" ==>
      2 <= |r| < |name| && name[|name| - |r|..] == r && r[0] == '.'
      && forall k :: 1 <= k < |r| ==> r[k] != '.'
    ensures r == "" <==>
      (forall k :: 0 < k < |name| ==> name[k] != '.') || (name != [] && name[|name| - 1] == '.')
  {
    if HasSuffix(name) then name[RFind(name, '.')..] else ""
  }

  /** `PurePath.stem`: the name without its suffix. */
  function Stem(name: string): (r: string)
    ensures r + Suffix(name) == name
  {
    if HasSuffix(name) then name[..RFind(name, '.')] else name
  }

  /** `str.lower()` on one character, for the ASCII letters. */
  function LowerChar(c: char): (r: char)
    ensures 'A' <= c <= 'Z' ==> r as int == c as int + 32
    ensures !('A' <= c <= 'Z') ==> r == c
  {
    if 'A' <= c <= 'Z' then (c as int + 32) as char else c
  }

  /** `str.lower()`, ASCII letters only. */
  function Lower(s: string): (r: string)
    ensures |r| == |s|
    ensures forall k :: 0 <= k < |s| ==> r[k] == LowerChar(s[k])
  {
    seq(|s|, k requires 0 <= k < |s| => LowerChar(s[k]))
  }

  /** The filter `archivo.suffix.lower() == ".pdf"`. */
  predicate IsPdfName(name: string) {
    Lower(Suffix(name)) == ".pdf"
  }

  /** A name of at least five characters ending in a dot followed by `p`, `d`, `f` in either case. */
  predicate EndsInPdf(name: string) {
    var n := |name|;
    n >= 5 && name[n - 4] == '.'
    && (name[n - 3] == 'p' || name[n - 3] == 'P')
    && (name[n - 2] == 'd' || name[n - 2] == 'D')
    && (name[n - 1] == 'f' || name[n - 1] == 'F')
  }

  lemma PdfNameEndsInPdf(name: string)
    requires IsPdfName(name)
    ensures EndsInPdf(name)
  {
    var r := Suffix(name);
    var n := |name|;
    assert |r| == 4 && r[0] == '.';
    assert name[n - 4..] == r;
    assert LowerChar(r[1]) == 'p' && LowerChar(r[2]) == 'd' && LowerChar(r[3]) == 'f';
  }

  lemma EndsInPdfIsPdfName(name: string)
    requires EndsInPdf(name)
    ensures IsPdfName(name)
  {
    var r := Suffix(name);
    var n := |name|;
    assert name[n - 4] == '.' && 0 < n - 4 < n;
    assert r != "";
    if |r| > 4 {
      assert r[|r| - 4] == name[n - 4];
    } else if |r| < 4 {
      assert r[0] == name[n - |r|];
    }
    assert r == name[n - 4..];
    var l := Lower(r);
    assert l[0] == '.' && l[1] == 'p' && l[2] == 'd' && l[3] == 'f';
    assert l == ".pdf";
  }

  /** The `.pdf` filter accepts exactly the names that end in `.pdf` in any mix of case, after at least one character. */
  lemma PdfNameMeaning(name: string)
    ensures IsPdfName(name) <==> EndsInPdf(name)
  {
    if IsPdfName(name) {
      PdfNameEndsInPdf(name);
    }
    if EndsInPdf(name) {
      EndsInPdfIsPdfName(name);
    }
  }

  /** Python's `\d`, restricted to the ASCII digits, and the digits `str(n)` prints. */
  predicate IsDigitChar(c: char) {
    '0' <= c <= '9'
  }

  function DigitChar(d: nat): (c: char)
    requires d < 10
    ensures IsDigitChar(c) && c as int - '0' as int == d
  {
    ('0' as int + d) as char
  }

  /** `int(s)` for a string of decimal digits, read left to right. */
  function DecimalValue(s: string): int {
    if s == [] then 0 else 10 * DecimalValue(s[..|s| - 1]) + (s[|s| - 1] as int - '0' as int)
  }

  /** `str(n)` for a natural number: its decimal digits, no leading zero. */
  function NatToString(n: nat): (r: string)
    ensures r != []
    ensures forall k :: 0 <= k < |r| ==> IsDigitChar(r[k])
    ensures DecimalValue(r) == n
    ensures n > 0 ==> r[0] != '0'
    ensures n < 10 <==> |r| == 1
  {
    if n < 10 then [DigitChar(n)]
    else
      var r := NatToString(n / 10) + [DigitChar(n % 10)];
      assert r[..|r| - 1] == NatToString(n / 10);
      r
  }

  /** Distinct numbers print differently, so `base_1`, `base_2`, ... are distinct names. */
  lemma {:induction false} NatToStringInjective(a: nat, b: nat)
    requires NatToString(a) == NatToString(b)
    ensures a == b
  {
    var sa, sb := NatToString(a), NatToString(b);
    if a >= 10 && b >= 10 {
      assert sa[|sa| - 1] == sb[|sb| - 1];
      assert a % 10 == b % 10;
      assert sa[..|sa| - 1] == NatToString(a / 10);
      assert sb[..|sb| - 1] == NatToString(b / 10);
      NatToStringInjective(a / 10, b / 10);
    }
  }

  /** The last dot of a dot-free base followed by `.pdf` is the one before `pdf`. */
  lemma LastDotOfPdfName(base: string)
    requires forall k :: 0 <= k < |base| ==> base[k] != '.'
    ensures RFind(base + ".pdf", '.') == |base|
  {
    var name := base + ".pdf";
    var i := RFind(name, '.');
    assert name[|base|] == '.';
    if i < |base| {
      assert false;
    }
  }

  /**
   * A dot-free base followed by `.pdf` splits into that base and `.pdf`,
   * and passes the `.pdf` filter.
   */
  lemma DotlessPdfName(base: string)
    requires base != []
    requires forall k :: 0 <= k < |base| ==> base[k] != '.'
    ensures Stem(base + ".pdf") == base && Suffix(base + ".pdf") == ".pdf"
    ensures IsPdfName(base + ".pdf")
  {
    var name := base + ".pdf";
    LastDotOfPdfName(base);
    assert name[|base|..] == ".pdf";
    assert Suffix(name) == ".pdf";
    assert Lower(".pdf") == ".pdf";
  }
}
