/**
 * `nombre_unico`: keep the destination name if it is free, otherwise try
 * `stem_1.suffix`, `stem_2.suffix`, ... and take the first free one. What
 * exists on disk is the finite set of names present in the directory.
 */
module UniqueNames {
  import opened PathNames

  /** `f"{base}_{suf}{destino.suffix}"`. */
  function Candidate(stem: string, suffix: string, n: nat): string {
    stem + "_" + NatToString(n) + suffix
  }

  /** Different counters give different candidate names. */
  lemma CandidateInjective(stem: string, suffix: string, a: nat, b: nat)
    requires Candidate(stem, suffix, a) == Candidate(stem, suffix, b)
    ensures a == b
  {
    var sa, sb := NatToString(a), NatToString(b);
    var ca, cb := Candidate(stem, suffix, a), Candidate(stem, suffix, b);
    assert |sa| == |sb|;
    assert sa == ca[|stem| + 1 .. |stem| + 1 + |sa|];
    assert sb == cb[|stem| + 1 .. |stem| + 1 + |sb|];
    NatToStringInjective(a, b);
  }

  /** A candidate is longer than the name it is derived from, so it is never that name. */
  lemma CandidateIsNotName(name: string, n: nat)
    ensures Candidate(Stem(name), Suffix(name), n) != name
  {
    assert |Candidate(Stem(name), Suffix(name), n)| > |Stem(name) + Suffix(name)|;
  }

  /** The candidates with counters `1 .. n-1`. */
  function CandidatesBelow(stem: string, suffix: string, n: nat): set<string>
    decreases n
  {
    if n <= 1 then {} else CandidatesBelow(stem, suffix, n - 1) + {Candidate(stem, suffix, n - 1)}
  }

  /** There are `n - 1` of them, and later candidates are not among them. */
  lemma {:induction false} CandidatesBelowCount(stem: string, suffix: string, n: nat)
    requires 1 <= n
    ensures |CandidatesBelow(stem, suffix, n)| == n - 1
    ensures forall m :: n <= m ==> Candidate(stem, suffix, m) !in CandidatesBelow(stem, suffix, n)
    decreases n
  {
    if n > 1 {
      CandidatesBelowCount(stem, suffix, n - 1);
      forall m | n <= m ensures Candidate(stem, suffix, m) != Candidate(stem, suffix, n - 1) {
        if Candidate(stem, suffix, m) == Candidate(stem, suffix, n - 1) {
          CandidateInjective(stem, suffix, m, n - 1);
        }
      }
    }
  }

  lemma {:induction false} SubsetCardinality(a: set<string>, b: set<string>)
    requires a <= b
    ensures |a| <= |b|
    decreases |a|
  {
    if a != {} {
      var x :| x in a;
      SubsetCardinality(a - {x}, b - {x});
    }
  }

  /**
   * When every candidate below `n` is taken, `n - 1` is at most the number of
   * taken names: the bound that makes the probing loop stop.
   */
  lemma ProbeBound(existing: set<string>, stem: string, suffix: string, n: nat)
    requires 1 <= n && CandidatesBelow(stem, suffix, n) <= existing
    ensures n <= |existing| + 1
  {
    CandidatesBelowCount(stem, suffix, n);
    SubsetCardinality(CandidatesBelow(stem, suffix, n), existing);
  }

  /** The first free candidate counting up from `n`. */
  function FirstFree(existing: set<string>, stem: string, suffix: string, n: nat): (r: nat)
    requires 1 <= n && CandidatesBelow(stem, suffix, n) <= existing
    ensures n <= r && Candidate(stem, suffix, r) !in existing
    ensures forall k :: n <= k < r ==> Candidate(stem, suffix, k) in existing
    decreases |existing| + 1 - n
  {
    ProbeBound(existing, stem, suffix, n);
    if Candidate(stem, suffix, n) !in existing then n
    else
      ProbeBound(existing, stem, suffix, n + 1);
      FirstFree(existing, stem, suffix, n + 1)
  }

  /** The smallest counter `N >= 1` whose candidate is free. */
  function FreeIndex(existing: set<string>, dest: string): (n: nat)
    ensures 1 <= n && Candidate(Stem(dest), Suffix(dest), n) !in existing
    ensures forall k :: 1 <= k < n ==> Candidate(Stem(dest), Suffix(dest), k) in existing
  {
    FirstFree(existing, Stem(dest), Suffix(dest), 1)
  }

  /**
   * What `nombre_unico` returns: `dest` if it is free, otherwise the lowest free
   * candidate, which is never `dest` itself. Either way the name is free.
   */
  function ResolveUnique(existing: set<string>, dest: string): (r: string)
    ensures r !in existing
    ensures dest !in existing ==> r == dest
    ensures dest in existing ==> r != dest && r == Candidate(Stem(dest), Suffix(dest), FreeIndex(existing, dest))
  {
    if dest !in existing then dest
    else
      CandidateIsNotName(dest, FreeIndex(existing, dest));
      Candidate(Stem(dest), Suffix(dest), FreeIndex(existing, dest))
  }

  /**
   * The lowest free counter is the only one that is free with every smaller
   * counter taken: the result does not depend on how the search is carried out.
   */
  lemma FreeIndexUnique(existing: set<string>, dest: string, n: nat)
    requires 1 <= n && Candidate(Stem(dest), Suffix(dest), n) !in existing
    requires forall k :: 1 <= k < n ==> Candidate(Stem(dest), Suffix(dest), k) in existing
    ensures n == FreeIndex(existing, dest)
  {
  }

  /** The probing loop of `nombre_unico`. */
  method UniqueName(existing: set<string>, dest: string) returns (r: string)
    ensures r == ResolveUnique(existing, dest)
  {
    if dest !in existing {
      return dest;
    }
    var stem, suffix := Stem(dest), Suffix(dest);
    var suf := 1;
    while true
      invariant 1 <= suf
      invariant CandidatesBelow(stem, suffix, suf) <= existing
      invariant FirstFree(existing, stem, suffix, suf) == FreeIndex(existing, dest)
      decreases |existing| + 1 - suf
    {
      ProbeBound(existing, stem, suffix, suf);
      var candidate := Candidate(stem, suffix, suf);
      if candidate !in existing {
        return candidate;
      }
      suf := suf + 1;
    }
  }

  /**
   * For the destination `<id>.pdf` the renamer builds, the result is
   * `<id>.pdf` or `<id>_<N>.pdf`, and it still passes the `.pdf` filter.
   */
  lemma PdfTargetStaysPdf(existing: set<string>, id: string)
    requires id != [] && forall k :: 0 <= k < |id| ==> IsDigitChar(id[k])
    ensures var r := ResolveUnique(existing, id + ".pdf");
      IsPdfName(r)
      && (r == id + ".pdf" || r == id + "_" + NatToString(FreeIndex(existing, id + ".pdf")) + ".pdf")
  {
    var dest := id + ".pdf";
    DotlessPdfName(id);
    if dest in existing {
      NumberedPdfName(id, FreeIndex(existing, dest));
    }
  }

  /** `<id>_<N>.pdf` is the candidate numbered `N` for `<id>.pdf`, and passes the `.pdf` filter. */
  lemma NumberedPdfName(id: string, n: nat)
    requires id != [] && forall k :: 0 <= k < |id| ==> IsDigitChar(id[k])
    ensures Candidate(Stem(id + ".pdf"), Suffix(id + ".pdf"), n) == id + "_" + NatToString(n) + ".pdf"
    ensures IsPdfName(id + "_" + NatToString(n) + ".pdf")
  {
    DotlessPdfName(id);
    var base := id + "_" + NatToString(n);
    NumberedBaseDotless(id, n);
    DotlessPdfName(base);
  }

  /** `<id>_<N>` holds no dot. */
  lemma NumberedBaseDotless(id: string, n: nat)
    requires forall k :: 0 <= k < |id| ==> IsDigitChar(id[k])
    ensures var base := id + "_" + NatToString(n);
      base != [] && forall k :: 0 <= k < |base| ==> base[k] != '.'
  {
    var digits := NatToString(n);
    var base := id + "_" + digits;
    forall k | 0 <= k < |base| ensures base[k] != '.' {
      if k < |id| {
        assert base[k] == id[k];
      } else if k == |id| {
        assert base[k] == '_';
      } else {
        assert base[k] == digits[k - |id| - 1];
      }
    }
  }

  /** The case of a file `10.pdf` whose own contract number is 10: it takes its own name, so `10_1.pdf` is chosen. */
  lemma TakenByItself()
    ensures ResolveUnique({"10.pdf"}, "10" + ".pdf") == "10_1.pdf"
  {
    assert "10" + ".pdf" == "10.pdf";
    DotlessPdfName("10");
    assert Candidate("10", ".pdf", 1) == "10_1.pdf";
    FreeIndexUnique({"10.pdf"}, "10.pdf", 1);
  }
}
