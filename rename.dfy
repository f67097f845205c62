/**
 * `renombrar_pdfs` of the console variant: it returns early, touching nothing,
 * when the path is not a directory, and otherwise prints the three totals
 * (returned here as the totals it would print).
 */
module Rename {
  import opened Wrappers
  import opened Batch

  method RenamePdfs(folder: Folder, isDirectory: bool, listing: seq<string>, failing: set<string>)
    returns (report: Option<Counts>)
    requires isDirectory ==> IsListingOf(listing, folder.entries)
    modifies folder
    ensures !isDirectory ==> report == None && folder.entries == old(folder.entries)
    ensures isDirectory ==>
      var final := Run(State(old(folder.entries), Counts(0, 0, 0)), listing, failing);
      folder.entries == final.entries && report == Some(final.counts)
    ensures isDirectory ==> report.value.Total() == |SelectedIn(old(folder.entries), listing)|
    ensures isDirectory ==> KeepsUnselected(old(folder.entries), folder.entries)
  {
    if !isDirectory {
      return None;
    }
    ghost var start := State(folder.entries, Counts(0, 0, 0));
    BatchGuarantees(start, listing, failing);
    var counts := RenameAll(folder, listing, failing);
    report := Some(counts);
  }
}
