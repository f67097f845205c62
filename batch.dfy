/**
 * The loop shared by both variants of `renombrar_pdfs`: for every entry of the
 * directory listing that is a regular file with a `.pdf` suffix, extract its
 * text, look for the contract number, and rename the file to a free
 * `<number>.pdf` name in the same directory.
 *
 * The directory is a map from names to entries; `Folder` holds it and changes
 * it in place through `Rename`. Whether a rename succeeds is decided by the
 * operating system, modelled as the set `failing` of names whose rename raises.
 */
module Batch {
  import opened Wrappers
  import opened PathNames
  import TextExtract
  import ContractMatch
  import UniqueNames

  /** A directory entry: a regular file (its pages, as the PDF library reads them) or anything else. */
  datatype Entry =
    | File(pages: seq<Option<string>>, failAt: Option<nat>)
    | Other

  /** The three counters of `renombrar_pdfs`. */
  datatype Counts = Counts(renamed: nat, unmatched: nat, errors: nat) {
    function Total(): nat {
      renamed + unmatched + errors
    }
  }

  /** What happens to one listed entry. */
  datatype Outcome =
    | Skipped                    // not a regular `.pdf` file: no counter moves
    | Unmatched                  // no contract number in its text
    | Renamed(dest: string)      // moved to `dest`
    | RenameFailed(dest: string) // the rename to `dest` raised

  datatype State = State(entries: map<string, Entry>, counts: Counts)

  /** `archivo.is_file() and archivo.suffix.lower() == ".pdf"`. */
  predicate Selected(entries: map<string, Entry>, name: string) {
    name in entries && entries[name].File? && IsPdfName(name)
  }

  /** `fichero / f"{numero}.pdf"`, as a name inside the directory. */
  function Target(id: string): string {
    id + ".pdf"
  }

  /** The directory after a successful `rename(src, dst)`. */
  function Moved(entries: map<string, Entry>, src: string, dst: string): (r: map<string, Entry>)
    requires src in entries
    ensures dst in r && r[dst] == entries[src]
    ensures src != dst ==> src !in r
    ensures forall n :: n != src && n != dst ==> (n in r <==> n in entries)
    ensures forall n :: n in r && n != src && n != dst ==> r[n] == entries[n]
  {
    (entries - {src})[dst := entries[src]]
  }

  /** The outcome of one iteration of the loop of `renombrar_pdfs`. */
  function OutcomeOf(entries: map<string, Entry>, name: string, failing: set<string>): (o: Outcome)
    ensures o.Skipped? <==> !Selected(entries, name)
    ensures (o.Renamed? || o.RenameFailed?) ==> o.dest !in entries && IsPdfName(o.dest)
    ensures o.Renamed? ==> name !in failing
    ensures o.RenameFailed? ==> name in failing
  {
    if !Selected(entries, name) then Skipped
    else
      var e := entries[name];
      match ContractMatch.ContractId(TextExtract.ExtractedText(e.pages, e.failAt))
      case None => Unmatched
      case Some(id) =>
        ContractMatch.ContractIdIsDigitRun(TextExtract.ExtractedText(e.pages, e.failAt), id);
        UniqueNames.PdfTargetStaysPdf(entries.Keys, id);
        var dest := UniqueNames.ResolveUnique(entries.Keys, Target(id));
        if name in failing then RenameFailed(dest) else Renamed(dest)
  }

  /**
   * A file with a contract number `id` goes to `<id>.pdf` when that name is
   * free, and otherwise to `<id>_<N>.pdf` with the lowest free `N`, whether or
   * not the rename then succeeds.
   */
  lemma DestinationFromOwnNumber(entries: map<string, Entry>, name: string, failing: set<string>, id: string)
    requires Selected(entries, name)
    requires ContractMatch.ContractId(TextExtract.ExtractedText(entries[name].pages, entries[name].failAt)) == Some(id)
    ensures var o := OutcomeOf(entries, name, failing);
      (o.Renamed? || o.RenameFailed?)
      && (id + ".pdf" !in entries ==> o.dest == id + ".pdf")
      && (id + ".pdf" in entries ==>
            o.dest == id + "_" + NatToString(UniqueNames.FreeIndex(entries.Keys, id + ".pdf")) + ".pdf")
  {
    var text := TextExtract.ExtractedText(entries[name].pages, entries[name].failAt);
    ContractMatch.ContractIdIsDigitRun(text, id);
    DotlessPdfName(id);
    var target := Target(id);
    var dest := UniqueNames.ResolveUnique(entries.Keys, target);
    assert OutcomeOf(entries, name, failing) == if name in failing then RenameFailed(dest) else Renamed(dest);
    if target in entries {
      assert dest == UniqueNames.Candidate(id, ".pdf", UniqueNames.FreeIndex(entries.Keys, target));
    }
  }

  /**
   * A selected file is counted as unmatched exactly when `Contrato`, whitespace
   * and digits occur nowhere in its text.
   */
  lemma UnmatchedMeansNoContract(entries: map<string, Entry>, name: string, failing: set<string>)
    requires Selected(entries, name)
    ensures var text := TextExtract.ExtractedText(entries[name].pages, entries[name].failAt);
      OutcomeOf(entries, name, failing).Unmatched?
      <==> forall j: nat, g: nat, l: nat :: !ContractMatch.PatternAt(text, j, g, l)
  {
    ContractMatch.SearchLeftmostGreedy(TextExtract.ExtractedText(entries[name].pages, entries[name].failAt));
  }

  /** One iteration: apply the outcome to the directory and the counters. */
  function Step(s: State, name: string, failing: set<string>): State {
    match OutcomeOf(s.entries, name, failing)
    case Skipped => s
    case Unmatched => s.(counts := s.counts.(unmatched := s.counts.unmatched + 1))
    case Renamed(dest) =>
      State(Moved(s.entries, name, dest), s.counts.(renamed := s.counts.renamed + 1))
    case RenameFailed(_) => s.(counts := s.counts.(errors := s.counts.errors + 1))
  }

  /** The loop over the listing, from state `s`. */
  function Run(s: State, names: seq<string>, failing: set<string>): State
    decreases |names|
  {
    if names == [] then s else Run(Step(s, names[0], failing), names[1..], failing)
  }

  predicate NoDuplicates(names: seq<string>) {
    forall i, j :: 0 <= i < j < |names| ==> names[i] != names[j]
  }

  /** `listing` is what `iterdir()` yields for the directory: each entry once. */
  ghost predicate IsListingOf(listing: seq<string>, entries: map<string, Entry>) {
    NoDuplicates(listing) && forall n :: n in listing <==> n in entries
  }

  /** The listed names whose entries are selected, in listing order. */
  function SelectedIn(entries: map<string, Entry>, names: seq<string>): (r: seq<string>)
    ensures |r| <= |names|
  {
    if names == [] then []
    else (if Selected(entries, names[0]) then [names[0]] else []) + SelectedIn(entries, names[1..])
  }

  /** One step moves exactly one counter for a selected entry and none otherwise. */
  lemma StepCounts(s: State, name: string, failing: set<string>)
    ensures Step(s, name, failing).counts.Total()
      == s.counts.Total() + (if Selected(s.entries, name) then 1 else 0)
  {
  }

  /** One step leaves every other entry that was present where it was. */
  lemma StepFrames(s: State, name: string, failing: set<string>, other: string)
    requires other in s.entries && other != name
    ensures other in Step(s, name, failing).entries
    ensures Step(s, name, failing).entries[other] == s.entries[other]
  {
  }

  /** Whether an entry is selected depends only on its own name and entry. */
  lemma {:induction false} SelectedInAgree(e: map<string, Entry>, e': map<string, Entry>, names: seq<string>)
    requires forall n :: n in names ==> n in e && n in e' && e[n] == e'[n]
    ensures SelectedIn(e, names) == SelectedIn(e', names)
    decreases |names|
  {
    if names != [] {
      SelectedInAgree(e, e', names[1..]);
    }
  }

  /**
   * Every selected entry of the listing moves exactly one counter:
   * renamed + unmatched + errors grows by the number of selected entries.
   */
  lemma {:induction false} EverySelectedCountedOnce(s: State, names: seq<string>, failing: set<string>)
    requires NoDuplicates(names)
    requires forall n :: n in names ==> n in s.entries
    ensures Run(s, names, failing).counts.Total() == s.counts.Total() + |SelectedIn(s.entries, names)|
    decreases |names|
  {
    if names != [] {
      var x, rest := names[0], names[1..];
      var s' := Step(s, x, failing);
      StepCounts(s, x, failing);
      forall n | n in rest ensures n in s'.entries && s'.entries[n] == s.entries[n] {
        StepFrames(s, x, failing, n);
      }
      SelectedInAgree(s.entries, s'.entries, rest);
      EverySelectedCountedOnce(s', rest, failing);
    }
  }

  /** An entry that is not listed is never touched: in particular, a file once renamed stays renamed. */
  lemma {:induction false} RunFramesUnlisted(s: State, names: seq<string>, failing: set<string>, n: string)
    requires n in s.entries && n !in names
    ensures n in Run(s, names, failing).entries
    ensures Run(s, names, failing).entries[n] == s.entries[n]
    decreases |names|
  {
    if names != [] {
      StepFrames(s, names[0], failing, n);
      RunFramesUnlisted(Step(s, names[0], failing), names[1..], failing, n);
    }
  }

  /** Entries that are not regular `.pdf` files keep their name and content. */
  lemma {:induction false} RunKeepsUnselected(s: State, names: seq<string>, failing: set<string>, n: string)
    requires n in s.entries && !Selected(s.entries, n)
    ensures n in Run(s, names, failing).entries
    ensures Run(s, names, failing).entries[n] == s.entries[n]
    decreases |names|
  {
    if names != [] {
      var s' := Step(s, names[0], failing);
      if names[0] != n {
        StepFrames(s, names[0], failing, n);
      }
      RunKeepsUnselected(s', names[1..], failing, n);
    }
  }

  /**
   * What one step does to the directory: a successful rename moves the entry to
   * a name that was free, and every other outcome leaves the directory as it was.
   */
  lemma StepEntries(s: State, x: string, failing: set<string>)
    ensures var o := OutcomeOf(s.entries, x, failing);
      (o.Renamed? ==> x in s.entries && o.dest !in s.entries
                      && Step(s, x, failing).entries == Moved(s.entries, x, o.dest))
      && (!o.Renamed? ==> Step(s, x, failing).entries == s.entries)
  {
  }

  /** Moving an entry to a free name keeps the number of entries. */
  lemma MovedKeepsSize(m: map<string, Entry>, src: string, dst: string)
    requires src in m && dst !in m
    ensures |Moved(m, src, dst)| == |m|
  {
    assert Moved(m, src, dst).Keys == m.Keys - {src} + {dst};
  }

  /** One step moves at most one file to a free name, so the directory keeps its size. */
  lemma StepKeepsSize(s: State, x: string, failing: set<string>)
    ensures |Step(s, x, failing).entries| == |s.entries|
  {
    var o := OutcomeOf(s.entries, x, failing);
    StepEntries(s, x, failing);
    if o.Renamed? {
      MovedKeepsSize(s.entries, x, o.dest);
    }
  }

  /** Renaming moves files and never loses or duplicates one: the directory keeps its size. */
  lemma {:induction false} RunKeepsSize(s: State, names: seq<string>, failing: set<string>)
    ensures |Run(s, names, failing).entries| == |s.entries|
    decreases |names|
  {
    if names != [] {
      StepKeepsSize(s, names[0], failing);
      RunKeepsSize(Step(s, names[0], failing), names[1..], failing);
    }
  }

  lemma {:induction false} RunAppend(s: State, a: seq<string>, b: seq<string>, failing: set<string>)
    ensures Run(s, a + b, failing) == Run(Run(s, a, failing), b, failing)
    decreases |a|
  {
    if a == [] {
      assert a + b == b;
    } else {
      assert (a + b)[0] == a[0];
      assert (a + b)[1..] == a[1..] + b;
      RunAppend(Step(s, a[0], failing), a[1..], b, failing);
    }
  }

  /** A name absent from the directory is not among names that are all present. */
  lemma NotListed(names: seq<string>, entries: map<string, Entry>, n: string)
    requires forall k :: 0 <= k < |names| ==> names[k] in entries
    requires n !in entries
    ensures n !in names
  {
    forall k | 0 <= k < |names| ensures names[k] != n {
    }
  }

  /** A file renamed to a free name keeps its new name through the rest of the listing. */
  lemma RenameSurvivesRest(mid: State, after: State, x: string, dest: string, rest: seq<string>, failing: set<string>)
    requires forall k :: 0 <= k < |rest| ==> rest[k] in mid.entries
    requires x in mid.entries && dest !in mid.entries
    requires after.entries == Moved(mid.entries, x, dest)
    ensures dest in Run(after, rest, failing).entries
    ensures Run(after, rest, failing).entries[dest] == mid.entries[x]
  {
    NotListed(rest, mid.entries, dest);
    RunFramesUnlisted(after, rest, failing, dest);
  }

  /** Names still to be processed have not been touched by the steps before them. */
  lemma UnprocessedUntouched(s: State, names: seq<string>, i: nat, failing: set<string>)
    requires NoDuplicates(names)
    requires forall n :: n in names ==> n in s.entries
    requires i <= |names|
    ensures forall k :: i <= k < |names| ==>
      names[k] in Run(s, names[..i], failing).entries && Run(s, names[..i], failing).entries[names[k]] == s.entries[names[k]]
  {
    forall k | i <= k < |names|
      ensures names[k] in Run(s, names[..i], failing).entries
      ensures Run(s, names[..i], failing).entries[names[k]] == s.entries[names[k]]
    {
      forall j | 0 <= j < i ensures names[..i][j] != names[k] {
        assert names[..i][j] == names[j];
      }
      RunFramesUnlisted(s, names[..i], failing, names[k]);
    }
  }

  /** The batch is the steps before position `i`, the step on `names[i]`, then the rest. */
  lemma RunAround(s: State, names: seq<string>, i: nat, failing: set<string>)
    requires i < |names|
    ensures Run(s, names, failing) == Run(Step(Run(s, names[..i], failing), names[i], failing), names[i + 1..], failing)
  {
    assert names == names[..i] + names[i..];
    RunAppend(s, names[..i], names[i..], failing);
    assert names[i..][1..] == names[i + 1..];
  }

  /**
   * Renames already done are never undone: a file renamed while the `i`-th
   * name of the listing is processed is found under its new name, with its
   * original content, when the batch ends.
   */
  lemma RenamedFileStays(s: State, names: seq<string>, failing: set<string>, i: nat)
    requires NoDuplicates(names)
    requires forall n :: n in names ==> n in s.entries
    requires i < |names|
    ensures var mid := Run(s, names[..i], failing);
      var o := OutcomeOf(mid.entries, names[i], failing);
      o.Renamed? ==>
        o.dest in Run(s, names, failing).entries
        && Run(s, names, failing).entries[o.dest] == s.entries[names[i]]
  {
    var mid := Run(s, names[..i], failing);
    var o := OutcomeOf(mid.entries, names[i], failing);
    if o.Renamed? {
      RunAround(s, names, i, failing);
      StepEntries(mid, names[i], failing);
      RenameKeptToEnd(s, names, i, failing, mid, Step(mid, names[i], failing), o.dest);
    }
  }

  /**
   * If the step on `names[i]` moved it to the free name `dest`, the file is
   * under `dest`, with its original content, when the batch ends.
   */
  lemma RenameKeptToEnd(s: State, names: seq<string>, i: nat, failing: set<string>, mid: State, after: State, dest: string)
    requires NoDuplicates(names)
    requires forall n :: n in names ==> n in s.entries
    requires i < |names| && mid == Run(s, names[..i], failing)
    requires names[i] in mid.entries && dest !in mid.entries
    requires after.entries == Moved(mid.entries, names[i], dest)
    requires Run(s, names, failing) == Run(after, names[i + 1..], failing)
    ensures dest in Run(s, names, failing).entries
    ensures Run(s, names, failing).entries[dest] == s.entries[names[i]]
  {
    UnprocessedUntouched(s, names, i, failing);
    var rest := names[i + 1..];
    assert forall k :: 0 <= k < |rest| ==> rest[k] == names[i + 1 + k];
    RenameSurvivesRest(mid, after, names[i], dest, rest, failing);
  }

  /**
   * A `.pdf` file already named after its own contract number counts as taken
   * by itself: it is renamed to `<id>_<N>.pdf`, never to its own name.
   */
  lemma NamedAfterOwnNumber(entries: map<string, Entry>, name: string, failing: set<string>, id: string)
    requires Selected(entries, name) && name !in failing
    requires ContractMatch.ContractId(TextExtract.ExtractedText(entries[name].pages, entries[name].failAt)) == Some(id)
    requires name == Target(id)
    ensures OutcomeOf(entries, name, failing)
      == Renamed(id + "_" + NatToString(UniqueNames.FreeIndex(entries.Keys, name)) + ".pdf")
  {
    ContractMatch.ContractIdIsDigitRun(TextExtract.ExtractedText(entries[name].pages, entries[name].failAt), id);
    DotlessPdfName(id);
  }

  /** Every entry of `before` that is not a regular `.pdf` file is in `after`, unchanged. */
  ghost predicate KeepsUnselected(before: map<string, Entry>, after: map<string, Entry>) {
    forall n :: n in before && !Selected(before, n) ==> n in after && after[n] == before[n]
  }

  /**
   * What a whole batch over a directory's listing guarantees: every selected
   * file is counted exactly once, the directory keeps its number of entries,
   * and entries that are not regular `.pdf` files are left as they were.
   */
  lemma BatchGuarantees(start: State, listing: seq<string>, failing: set<string>)
    requires IsListingOf(listing, start.entries)
    ensures Run(start, listing, failing).counts.Total() == start.counts.Total() + |SelectedIn(start.entries, listing)|
    ensures |Run(start, listing, failing).entries| == |start.entries|
    ensures KeepsUnselected(start.entries, Run(start, listing, failing).entries)
  {
    EverySelectedCountedOnce(start, listing, failing);
    RunKeepsSize(start, listing, failing);
    forall n | n in start.entries && !Selected(start.entries, n)
      ensures n in Run(start, listing, failing).entries && Run(start, listing, failing).entries[n] == start.entries[n]
    {
      RunKeepsUnselected(start, listing, failing, n);
    }
  }

  /** The directory a batch runs on, changed in place by `rename`. */
  class Folder {
    var entries: map<string, Entry>

    constructor (entries: map<string, Entry>)
      ensures this.entries == entries
    {
      this.entries := entries;
    }

    /** `Path.rename`: moves the entry, unless the operating system refuses (`fails`). */
    method Rename(src: string, dst: string, fails: bool) returns (ok: bool)
      requires src in entries
      modifies this
      ensures ok == !fails
      ensures entries == if ok then Moved(old(entries), src, dst) else old(entries)
    {
      ok := !fails;
      if ok {
        entries := Moved(entries, src, dst);
      }
    }
  }

  /** The `for archivo in fichero.iterdir()` loop over a snapshot of the listing. */
  method RenameAll(folder: Folder, listing: seq<string>, failing: set<string>) returns (counts: Counts)
    modifies folder
    ensures State(folder.entries, counts) == Run(State(old(folder.entries), Counts(0, 0, 0)), listing, failing)
  {
    counts := Counts(0, 0, 0);
    var i := 0;
    while i < |listing|
      invariant 0 <= i <= |listing|
      invariant Run(State(folder.entries, counts), listing[i..], failing)
        == Run(State(old(folder.entries), Counts(0, 0, 0)), listing, failing)
    {
      var name := listing[i];
      ghost var before := State(folder.entries, counts);
      if name in folder.entries && folder.entries[name].File? && IsPdfName(name) {
        var entry := folder.entries[name];
        var text := TextExtract.ExtractText(entry.pages, entry.failAt);
        var found := ContractMatch.ContractId(text);
        if found.Some? {
          var dest := UniqueNames.UniqueName(folder.entries.Keys, Target(found.value));
          assert OutcomeOf(before.entries, name, failing)
            == if name in failing then RenameFailed(dest) else Renamed(dest);
          var ok := folder.Rename(name, dest, name in failing);
          if ok {
            counts := counts.(renamed := counts.renamed + 1);
          } else {
            counts := counts.(errors := counts.errors + 1);
          }
        } else {
          assert OutcomeOf(before.entries, name, failing) == Unmatched;
          counts := counts.(unmatched := counts.unmatched + 1);
        }
      } else {
        assert OutcomeOf(before.entries, name, failing) == Skipped;
      }
      assert State(folder.entries, counts) == Step(before, name, failing);
      assert listing[i..][1..] == listing[i + 1..];
      i := i + 1;
    }
  }
}
