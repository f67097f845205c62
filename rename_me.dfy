/**
 * `renombrar_pdfs` of the windowed variant: no check that the path is a
 * directory (listing a non-directory raises), and a dictionary result.
 */
module RenameMe {
  import opened Wrappers
  import opened Batch

  /** The dictionary returned to the window that shows the result. */
  datatype Summary = Summary(
    renamed: nat,
    unmatched: nat,
    errors: nat,
    renamedDetails: seq<(string, string)>,
    errorDetails: seq<(string, string)>)

  /** `fichero.iterdir()` raises when the path is not a directory. */
  datatype Error = NotADirectory

  method RenamePdfs(folder: Folder, isDirectory: bool, listing: seq<string>, failing: set<string>)
    returns (r: Result<Summary, Error>)
    requires isDirectory ==> IsListingOf(listing, folder.entries)
    modifies folder
    ensures !isDirectory ==> r == Failure(NotADirectory) && folder.entries == old(folder.entries)
    ensures isDirectory ==>
      var final := Run(State(old(folder.entries), Counts(0, 0, 0)), listing, failing);
      folder.entries == final.entries
      && r == Success(Summary(final.counts.renamed, final.counts.unmatched, final.counts.errors, [], []))
      && final.counts.Total() == |SelectedIn(old(folder.entries), listing)|
    ensures isDirectory ==> KeepsUnselected(old(folder.entries), folder.entries)
    ensures isDirectory ==> |folder.entries| == |old(folder.entries)|
  {
    if !isDirectory {
      return Failure(NotADirectory);
    }
    ghost var start := State(folder.entries, Counts(0, 0, 0));
    BatchGuarantees(start, listing, failing);
    var counts := RenameAll(folder, listing, failing);
    var renamedDetails: seq<(string, string)> := [];
    var errorDetails: seq<(string, string)> := [];
    var summary := Summary(counts.renamed, counts.unmatched, counts.errors, renamedDetails, errorDetails);
    r := Success(summary);
  }
}
