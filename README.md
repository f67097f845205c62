# PDF contract renamer — a verified model

The renamer walks a folder of PDF files. For every regular file whose suffix,
lower-cased, is `.pdf`, it extracts the text of the pages, looks for the first
`Contrato <spaces> <digits>` (any letter case), and renames the file to
`<digits>.pdf`. When that name is taken it uses the first free
`<digits>_<N>.pdf`. It counts files renamed, files without a contract number,
and renames that failed. There are two variants with the same loop:

- `RenameMe.py` (windowed) returns a dictionary with the three counts and two
  detail lists.
- `Rename.py` (console) first checks that the path is a directory, and prints
  the three counts.

The model is split into modules that follow the program:

| module | file | what it is |
|---|---|---|
| `PathNames` | `path_names.dfy` | `PurePath.stem` / `.suffix`, ASCII `str.lower()`, `str(n)`, the `.pdf` filter |
| `ContractMatch` | `contract_match.dfy` | `re.search(r"Contrato\s+(\d+)", text, re.IGNORECASE).group(1)` as a left-to-right scan |
| `TextExtract` | `text_extract.dfy` | `extraer_texto_pdf`: the loop over pages, with the handler that keeps what was gathered |
| `UniqueNames` | `unique_name.dfy` | `nombre_unico`: the probing loop and the function that specifies it |
| `Batch` | `batch.dfy` | one iteration (`OutcomeOf`, `Step`), the whole loop (`Run`), the folder changed in place (`Folder`), the loop itself (`RenameAll`) |
| `RenameMe` | `rename_me.dfy` | `renombrar_pdfs` of `RenameMe.py` |
| `Rename` | `rename.dfy` | `renombrar_pdfs` of `Rename.py` |
| `Wrappers` | `wrappers.dfy` | `Option` and `Result` |

How the outside world is represented:

- **The folder** is a `map<string, Entry>` from names to entries. An entry is a
  regular file, carrying the page texts the PDF library would produce, or
  anything else.
- **The listing** that `iterdir()` yields is a snapshot `seq<string>`: every
  name of the map, once each.
- **The PDF library** is the sequence of `page.extract_text()` results
  (`Option<string>`, where `None` stands for Python's `None`). It may also name
  the page at which opening or reading raises.
- **Rename failures** are decided by the operating system. They are the set
  `failing` of source names whose `rename` raises.
- **Whether the path is a directory** is a boolean parameter.

Both variants share the same text for `extraer_texto_pdf`, `nombre_unico` and
the loop of `renombrar_pdfs`. They are modelled once:

- `RenameMe.py:62-72` is the same code as `Rename.py:16-26`.
- `RenameMe.py:75-84` is the same code as `Rename.py:28-37`.
- `RenameMe.py:95-112` is the same code as `Rename.py:49-66`.

Three behaviours of the code that the model keeps as they are:

- **Detail lists.** `detalles_renombrados` and `detalles_errores` are never
  appended to, so both are always empty. `RenameMe.RenamePdfs` returns them
  empty.
- **A `10.pdf` already in the folder** is in the listing and is processed like
  any other file. With no contract number in its text it counts as unmatched.
  If its own number is 10, it takes its own name, so it is renamed to
  `10_<N>.pdf` with the lowest free `N`: `10_1.pdf` when that name is free
  (`Batch.NamedAfterOwnNumber`, `UniqueNames.TakenByItself`).
- **No directory check in the windowed variant.** Listing a non-directory
  raises. This is modelled as the error `NotADirectory`, returned before
  anything changes.

## Model

| member | source | states |
|---|---|---|
| `PathNames.RFind` | RenameMe.py:96 | the index of the last occurrence of the character (no occurrence after it), or -1 when there is none |
| `PathNames.Suffix` | RenameMe.py:96 | `.suffix` is a proper ending of the name that starts with a dot, holds no other dot and has a character after the dot; it is empty exactly when no dot follows the first character or the name ends in a dot |
| `PathNames.PdfNameMeaning` | RenameMe.py:96 | `archivo.suffix.lower() == ".pdf"` holds exactly for names of at least five characters ending in `.` and `p`, `d`, `f` in either case |
| `PathNames.Stem` | RenameMe.py:78 | stem followed by suffix gives the name back |
| `PathNames.NatToString` | RenameMe.py:81 | `str(suf)` is a non-empty run of decimal digits whose decimal value is `suf`, with no leading zero |
| `PathNames.NatToStringInjective` | RenameMe.py:81 | different counters print differently |
| `PathNames.DotlessPdfName` | RenameMe.py:101 | `<digits>.pdf` has stem `<digits>` and suffix `.pdf`, and passes the `.pdf` filter |
| `ContractMatch.Span` | RenameMe.py:98 | a greedy `\s+`/`\d+` run: every character in it matches the class, and the one after it does not |
| `ContractMatch.MatchAt` | RenameMe.py:98 | a match tried at a position starts at that position |
| `ContractMatch.MatchAtSound` | RenameMe.py:98 | a match found at `i` is an occurrence of `Contrato\s+\d+` at `i` (letters in any case), and its digit run cannot be extended |
| `ContractMatch.MatchAtGroup` | RenameMe.py:98-100 | group 1 is the non-empty digit run copied from the text right after the whitespace |
| `ContractMatch.MatchAtComplete` | RenameMe.py:98 | every way the pattern can match at `i` is found there, with the same whitespace and a digit run at least as long |
| `ContractMatch.SearchFromFirst` | RenameMe.py:98 | the scan returns the match at the first position that has one, and nothing only when no position has one |
| `ContractMatch.SearchFromFound` | RenameMe.py:98 | the match the scan returns is the one found at its reported start |
| `ContractMatch.SearchLeftmostGreedy` | RenameMe.py:98 | `re.search` finds the leftmost occurrence and the greedy reading there, and finds nothing exactly when the pattern occurs nowhere |
| `ContractMatch.ContractIdIsDigitRun` | RenameMe.py:98-100 | the contract number is a non-empty run of ASCII digits |
| `ContractMatch.ContractIdIsCopied` | RenameMe.py:98-100 | `match.group(1)` is copied verbatim from the text (leading zeros kept), right after the whitespace that follows `Contrato` |
| `TextExtract.Truthy` | RenameMe.py:66-69 | only pages whose text is truthy are kept, so no collected part is empty |
| `TextExtract.PagesRead` | RenameMe.py:64-71 | every page is read when nothing raises; otherwise only the pages before the failing one |
| `TextExtract.FailureAtPage` | RenameMe.py:64-72 | when page `k` raises, the result is the text of pages `0 .. k-1`, as if the document ended there |
| `TextExtract.ExtractText` | RenameMe.py:62-72 | the loop returns the truthy texts of the pages read, in page order, joined by `"\n"`, also when reading raised partway |
| `TextExtract.TruthyAppend` | RenameMe.py:66-69 | collecting two runs of pages one after the other collects the parts of each, in order |
| `TextExtract.BlankPageAddsNothing` | RenameMe.py:68-69 | a page with no text adds nothing to the result, not even a line break |
| `TextExtract.JoinLinesPrefix` | RenameMe.py:72 | joining more parts only extends the text |
| `TextExtract.JoinLinesEmpty` | RenameMe.py:72 | joining non-empty parts gives the empty string only when there are no parts |
| `TextExtract.FailureKeepsCollected` | RenameMe.py:64-72 | after a failure, the text is a prefix of the text of the whole document, and it is empty only when no page before the failure had text |
| `TextExtract.TruthyEmpty` | RenameMe.py:66-69 | nothing is collected exactly when no page read has text |
| `TextExtract.SplitJoin` | RenameMe.py:72 | splitting the joined text at line breaks gives the parts back when they have no line breaks of their own |
| `UniqueNames.CandidateInjective` | RenameMe.py:81 | different counters give different `stem_N.suffix` names |
| `UniqueNames.CandidateIsNotName` | RenameMe.py:81 | a candidate is never the name it is derived from |
| `UniqueNames.CandidatesBelowCount` | RenameMe.py:79-84 | the candidates `1 .. n-1` are `n-1` distinct names, and later candidates are not among them |
| `UniqueNames.ProbeBound` | RenameMe.py:80-84 | when every candidate below `suf` is taken, `suf` is at most one more than the number of existing names: the probing loop stops |
| `UniqueNames.FirstFree` | RenameMe.py:80-84 | counting up from `n`, it returns a free candidate, and every candidate it passes is taken |
| `UniqueNames.FreeIndex` | RenameMe.py:78-84 | the smallest `N >= 1` whose candidate is free |
| `UniqueNames.FreeIndexUnique` | RenameMe.py:78-84 | only one counter is free with all smaller counters taken |
| `UniqueNames.ResolveUnique` | RenameMe.py:75-84 | `destino` itself when it is free; otherwise `stem_N.suffix` with the smallest free `N >= 1`, never `destino`; the result is always free |
| `UniqueNames.UniqueName` | RenameMe.py:75-84 | the `while True` loop returns exactly that name |
| `UniqueNames.PdfTargetStaysPdf` | RenameMe.py:101-102 | the destination for contract `id` is `id.pdf` or `id_N.pdf` and still passes the `.pdf` filter |
| `UniqueNames.NumberedPdfName` | RenameMe.py:81 | for `<id>.pdf` the candidate numbered `N` is `<id>_<N>.pdf`, which passes the `.pdf` filter |
| `UniqueNames.TakenByItself` | RenameMe.py:101-102 | when only `10.pdf` exists, the destination for contract 10 is `10_1.pdf` |
| `Batch.Moved` | RenameMe.py:104 | after `rename(src, dst)`, `dst` holds what `src` held, `src` is gone, and every other entry is unchanged |
| `Batch.OutcomeOf` | RenameMe.py:96-112 | an entry is skipped exactly when it is not a regular `.pdf` file; a rename goes to a free `.pdf` name; it is counted as an error exactly when `rename` raises |
| `Batch.DestinationFromOwnNumber` | RenameMe.py:99-104 | a file whose contract number is `id` goes to `nombre_unico(<id>.pdf)`: `<id>.pdf` when that name is free, otherwise `<id>_<N>.pdf` with the lowest free `N` |
| `Batch.UnmatchedMeansNoContract` | RenameMe.py:98-112 | a selected file is unmatched exactly when the pattern occurs nowhere in its text |
| `Batch.StepCounts` | RenameMe.py:95-112 | one iteration moves exactly one counter for a selected entry and none for any other |
| `Batch.StepFrames` | RenameMe.py:104 | one iteration leaves every other entry as it was |
| `Batch.EverySelectedCountedOnce` | RenameMe.py:95-112 | renamed + unmatched + errors equals the number of selected files in the listing |
| `Batch.RunFramesUnlisted` | RenameMe.py:95-109 | an entry the loop is not given is never touched |
| `Batch.RunKeepsUnselected` | RenameMe.py:96 | entries that are not regular `.pdf` files keep their name and content |
| `Batch.StepEntries` | RenameMe.py:103-109 | one iteration either moves the file to a name that was free, after a successful rename, or leaves the folder as it was |
| `Batch.StepKeepsSize` | RenameMe.py:104 | one iteration keeps the folder's number of entries |
| `Batch.RunKeepsSize` | RenameMe.py:104 | renaming never loses or duplicates a file: the folder keeps its number of entries |
| `Batch.RenameSurvivesRest` | RenameMe.py:103-109 | a file moved to a free name is still under that name after the remaining iterations |
| `Batch.RenamedFileStays` | Rename.py:57-63 | renames already done are never undone: a file renamed while the `i`-th name is processed ends under its new name with its content |
| `Batch.RenameKeptToEnd` | Rename.py:57-63 | a file moved to a free name at position `i` of the listing is under that name, with its content, when the batch ends |
| `Batch.NamedAfterOwnNumber` | RenameMe.py:101-102 | a file named `<id>.pdf` whose own number is `id` is renamed to `<id>_<N>.pdf`, never to itself |
| `Batch.BatchGuarantees` | RenameMe.py:95-112 | a whole batch counts every selected file once, keeps the folder's size, and leaves non-PDF entries as they were |
| `Batch.Folder.constructor` | RenameMe.py:88 | the folder holds the given entries |
| `Batch.Folder.Rename` | RenameMe.py:103-109 | a rename either moves the entry or, when it raises, leaves the folder unchanged |
| `Batch.RenameAll` | RenameMe.py:95-112 | the loop leaves the folder and counters exactly as the iteration-by-iteration definition prescribes, a failed rename included |
| `RenameMe.RenamePdfs` | RenameMe.py:87-120 | an error and no change when the path is not a directory; otherwise the dictionary carries the final counts, which add up to the selected files, with both detail lists empty, and non-PDF entries and the folder's size are kept |
| `Rename.RenamePdfs` | Rename.py:40-71 | nothing changes and nothing is reported when the path is not a directory; otherwise the reported totals are the final counters, they add up to the selected files, and non-PDF entries are kept |

## Left out

- The windowed shell is not modelled: splash screens, the main window, the
  folder dialog, the result message box and `resource_path` (RenameMe.py:13-60,
  124-198; Rename.py:9-14, 73-78). They are user interface and packaging.
- The worker thread of `ejecutar_renombrado_async` is not modelled. It only
  keeps the window responsive, and the batch itself is sequential.
- PDF decoding by `pdfplumber` is an input: the page texts, and the page at which the
  library raises, are data.
- The printed diagnostics are not modelled. `Rename.RenamePdfs` returns the
  totals it would print instead.
- The filesystem is a snapshot. Other processes changing the folder, and what
  `iterdir` yields for entries renamed while it runs, are not modelled. The
  listing is fixed before the loop starts.
- Which renames raise (a locked file, missing permissions) is decided by the
  operating system. It is the oracle set `failing`; the model does not say why a
  rename fails.
- PathNames.IsDigitChar: accepts the ASCII digits only. Python's `\d` in a
  `str` pattern also accepts other Unicode decimal digits.
- PathNames.LowerChar: lowers the ASCII letters only, where Python lowers
  every Unicode letter. Both comparisons that use it, against `contrato` and
  against `.pdf`, give the same answer either way: no other character folds to
  one of these letters.
- Batch.OutcomeOf: the `try` around `rename` also covers the diagnostic
  `print` after it. A `print` that raises there (a file name that the console
  cannot encode) would count an error for a file already moved. A `print` that
  raises outside any `try` would abort the batch. Failures of the diagnostic
  `print`s are not modelled.
- Batch.OutcomeOf: `is_file()` and `exists()` are total in the model. In the
  program they re-raise every `OSError` other than a missing entry, a
  non-directory, a bad descriptor or a symbolic-link loop; for example an
  over-long name (`<id>.pdf` beyond the file-name limit) or a permission
  error. Such an error is outside any `try`, so it aborts the batch, and in
  the windowed variant no summary is shown.
- UniqueNames.ResolveUnique: names are compared exactly, as on a
  case-sensitive file system. On a case-insensitive one (the default on
  Windows and macOS) `exists()` would also see `10.PDF` as taking `10.pdf`;
  the model does not capture that.
- UniqueNames.ResolveUnique: every entry of the folder counts as existing.
  The program's `exists()` follows symbolic links, so it reports a dangling
  link or a link loop as free; the program may then pick that name, and on
  POSIX the rename silently replaces the link. `Batch.RunKeepsSize` and
  `Batch.RunKeepsUnselected` therefore hold of the program only for a folder
  without such links.
- Rename.RenamePdfs: `isDirectory` stands for "a directory that can be
  listed", and the same holds for `RenameMe.RenamePdfs`. In the program a
  listing error from `iterdir()` (an unreadable directory), or an `is_dir()`
  that raises, is outside any `try`: it aborts the call, the console variant
  prints no totals, and the windowed variant shows no summary.
- PathNames.Suffix: follows `pathlib` before Python 3.14 for a name ending in
  a dot: such a name has no suffix.
- RenameMe.RenamePdfs: an error raised by `iterdir` on a non-directory
  propagates out of the worker thread; it is returned as `NotADirectory`.
