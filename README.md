# Nebraska newspaper batch repair scripts, modelled in Dafny

Two repair scripts fix issues filed wrongly in a directory tree of NDNP
newspaper batches (`<batch>/<lccn>/<reel>/<issue>/`). Each issue holds a METS
manifest and ALTO page files. Each batch has two index files,
`batch.xml` and `batch_1.xml`, that list its issues and reels.

- `nebraska/fix_dates_by_lccn.py` (the *date fix*) finds the issue
  directories of one LCCN whose names carry a bad date. For each one it:
  - reads each ALTO page and writes it back. The replacement the code makes
    inside `String` contents selects no element of a namespaced ALTO page,
    so the pages are written back unchanged (see Findings);
  - replaces it in the METS `LABEL` and `mods:dateIssued`;
  - renames the METS files and the directory;
  - re-dates the issue's entries in both index files.
- `nebraska/fix_lccn_by_date.py` (the *LCCN fix*) finds the issue
  directories filed under a bad LCCN within a date window. For each one it:
  - writes the correct LCCN into the first METS `mods:identifier`;
  - moves the directory to the path with the correct LCCN;
  - copies the reel files to the new place when they are missing there;
  - deletes the old reel directory once it has no subdirectory left, and
    then its LCCN directory once that has no subdirectory left either;
  - opens both index files. It means to open them in the batch directory,
    but its pattern (line 230) yields the old LCCN directory, which holds no
    index file, so the run raises there, after the move and the reel
    operations (see Findings). Given readable index files there, it goes on:
  - repoints the issue's index entries;
  - updates the reel entries of each index file. It means to enter the
    copied reel, sorted by reel number and then LCCN, and to remove the
    deleted reel's entry. The key it uses is the reel's whole absolute path,
    which no relative index entry contains, so the copied reel is entered
    even when already listed, with the path's first directory as its
    `reelNumber`, and the deleted reel's entry stays (see Findings).

The model has these modules:

- `Strings`: Python's `find`, `replace`, `split('/')`, `int()`, negative slices and `os.path.join`.
- `Xml`: a parsed document is its root plus its descendants in document
  order. `XmlTree` is the in-memory ElementTree that the scripts change in
  place. The `fileinput` `<structMap>` patch is also here.
- `Locate`: the `os.walk`-based locators and the date window.
- `BatchIndex`: the edits to the batch index files.
- `Effects`: a run as the list of filesystem operations it performed, plus
  the error that stopped it. The scripts never roll back.
- `FixDates` and `FixLccn`: one issue's repair, for each script.

The loops of the scripts are `method`s with loop invariants. Each is proved
equal to a function, and the properties are proved as lemmas about those
functions. What a run observes of the filesystem is a parameter: the
documents that can be read, directory listings, and which files exist.

## Model

| member | source | states |
|---|---|---|
| Strings.ParseNat | nebraska/fix_lccn_by_date.py:264 | `int(s)` succeeds exactly on a non-empty string of ASCII digits |
| Strings.Split | nebraska/fix_lccn_by_date.py:279 | `split('/')` yields at least one part and no part contains the separator |
| Strings.Last | nebraska/fix_lccn_by_date.py:264 | `s[-n:]` is the last `min(n, len)` characters |
| Strings.DropLast | nebraska/fix_lccn_by_date.py:210 | `s[:-n]` is a prefix, `n` characters shorter (empty when `s` is not longer than `n`) |
| Strings.DropFirst | nebraska/fix_lccn_by_date.py:287 | `s[n:]` is the suffix after the first `n` characters |
| Strings.StripHyphensClears | nebraska/fix_dates_by_lccn.py:60 | the hyphen-free date form holds no hyphen |
| Strings.StripNoHyphen | nebraska/fix_dates_by_lccn.py:60 | text without a hyphen is left as it is |
| Strings.StripConcat | nebraska/fix_dates_by_lccn.py:60 | the hyphen after a hyphen-free head is dropped and the head kept |
| Strings.ReplaceAllAbsent | nebraska/fix_dates_by_lccn.py:161-162 | replacing a needle that does not occur changes nothing, so the `find` guard only skips a no-op |
| Strings.ReplaceAllClears | nebraska/fix_lccn_by_date.py:256 | after a safe replacement no occurrence of the old text is left |
| Strings.ReplaceAllIdempotent | nebraska/fix_lccn_by_date.py:169 | a safe replacement done twice equals it done once |
| Xml.Element.Set | nebraska/fix_lccn_by_date.py:254 | `set` gives the attribute its value and keeps tag, place, text and every other attribute |
| Xml.FindFirst | nebraska/fix_lccn_by_date.py:152 | `find(".//tag")` returns the first descendant with the tag, or `None` exactly when there is none |
| Xml.TagPositionsExactly | nebraska/fix_lccn_by_date.py:260 | `findall` keeps document order, returns only elements with the tag and misses none |
| Xml.EditAllExactly | nebraska/fix_lccn_by_date.py:247-256 | a loop of edits fails exactly when some element's edit fails, with the first failure; otherwise every element is replaced by its own edit, in place |
| Xml.InsertAt | nebraska/fix_lccn_by_date.py:305 | `list.insert(i, x)`: `x` lands at `i` with the rest shifted, or is appended when `i` is past the end |
| Xml.XmlTree.constructor | nebraska/fix_lccn_by_date.py:242-243 | the tree holds the parsed document |
| Xml.XmlTree.SetRootAttr | nebraska/fix_dates_by_lccn.py:162 | `root.set` changes only that attribute of the root |
| Xml.XmlTree.SetAttr | nebraska/fix_dates_by_lccn.py:138-139 | `set` on a descendant changes only that attribute of that element |
| Xml.XmlTree.SetText | nebraska/fix_lccn_by_date.py:155 | `.text =` changes only that element's text |
| Xml.XmlTree.Insert | nebraska/fix_lccn_by_date.py:305 | `root.insert` is list insertion into the children |
| Xml.XmlTree.Append | nebraska/fix_lccn_by_date.py:307 | `root.append` puts the element last |
| Xml.XmlTree.EditEach | nebraska/fix_lccn_by_date.py:247-256 | an in-place loop over the descendants leaves the tree as the edit of every element, or reports the first failure |
| Xml.XmlTree.RemoveAt | nebraska/fix_lccn_by_date.py:319 | `root.remove` takes out exactly that child |
| Xml.PatchFileLines | nebraska/fix_dates_by_lccn.py:172-176 | rewriting the file line by line gives the `<structMap>` patch of the whole text |
| Xml.StructMapPatchSafe | nebraska/fix_dates_by_lccn.py:174 | the `<structMap>` patch is a safe replacement |
| Xml.PatchStructMapClears | nebraska/fix_dates_by_lccn.py:174 | after the patch no bare `<structMap>` tag is left |
| Xml.PatchStructMapIdempotent | nebraska/fix_lccn_by_date.py:163 | patching an already patched file changes nothing |
| Xml.PatchStructMapAbsent | nebraska/fix_lccn_by_date.py:163 | a text with no bare `<structMap>` passes through unchanged |
| Locate.FindDirsContaining | nebraska/fix_lccn_by_date.py:103-116 | the walk loop returns the walked subdirectories whose names contain the needle, in walk order |
| Locate.AppendMatchingNames | nebraska/fix_lccn_by_date.py:107-111 | the inner loop over one walk step appends exactly the paths of the subdirectories whose names contain the needle, in listing order |
| Locate.MatchingNamesExactly | nebraska/fix_dates_by_lccn.py:96-102 | one walk step yields exactly the joins of its matching subdirectory names |
| Locate.DirsContainingExactly | nebraska/fix_lccn_by_date.py:106-111 | a path is located exactly when it joins a walked directory with a subdirectory name that contains the needle |
| Locate.FindLccnPathsOrExit | nebraska/fix_dates_by_lccn.py:92-108 | the date fix's LCCN locator, which ends the run when it finds nothing |
| Locate.FindBadDatePaths | nebraska/fix_dates_by_lccn.py:73-89 | the bad-date locator looks for the hyphen-free bad date and ends the run when it finds nothing |
| Locate.LocatedFailsIffNoMatch | nebraska/fix_dates_by_lccn.py:104-106 | these locators fail exactly when no walked subdirectory name contains the needle |
| Locate.ParseDate8 | nebraska/fix_lccn_by_date.py:90 | `strptime(d[:8], "%Y%m%d")` accepts exactly eight digits that form a calendar date, and yields the number they spell |
| Locate.YmdOrder | nebraska/fix_lccn_by_date.py:92 | comparing `YYYYMMDD` numbers orders calendar dates as `datetime` does |
| Locate.FindEffectedIssuePaths | nebraska/fix_lccn_by_date.py:81-100 | the window loop equals the window locator |
| Locate.WindowNamesExactly | nebraska/fix_lccn_by_date.py:88-95 | one walk step fails exactly on a ten-character name that is not a date, and otherwise yields exactly its ten-character names inside the window |
| Locate.IssuesInWindowExactly | nebraska/fix_lccn_by_date.py:87-95 | the locator returns exactly the walked ten-character directories dated within [start, end], both ends included, and fails exactly when one of them is not a date |
| BatchIndex.RelabelIssueEntries | nebraska/fix_lccn_by_date.py:245-256 | the in-place issue loop leaves the index repointed, or reports the first failure |
| BatchIndex.RelabelIssuesExactly | nebraska/fix_lccn_by_date.py:246-256 | it fails exactly on an issue entry without text; a matching issue entry gets `lccn = correct` and its text with every bad LCCN replaced, keeping its other attributes; every other entry is unchanged |
| BatchIndex.RelabelIssuesIdempotent | nebraska/fix_lccn_by_date.py:248-256 | with a safe replacement, repointing again changes nothing |
| BatchIndex.RedateIndexEntries | nebraska/fix_dates_by_lccn.py:224-232 | the in-place loop over `root.iter()` leaves the index re-dated, or reports the first failure |
| BatchIndex.RedateEntryExactly | nebraska/fix_dates_by_lccn.py:225-232 | an element fails exactly when it has no text, or it matches and has no `issueDate`; a matching element gets both dates replaced and keeps everything else; any other element is unchanged |
| BatchIndex.RedateIndexExactly | nebraska/fix_dates_by_lccn.py:224-232 | re-dating fails exactly when the root or a descendant fails, and otherwise every element is replaced by its own update, in place |
| BatchIndex.RedateEntrySettles | nebraska/fix_dates_by_lccn.py:225-232 | re-dating an entry again gives the same entry, once its replaced date and text hold the bad date no more |
| BatchIndex.RedateIndexSettles | nebraska/fix_dates_by_lccn.py:224-232 | re-dating the index again gives the same index, once no re-dated entry holds the bad date |
| BatchIndex.FindReelSlot | nebraska/fix_lccn_by_date.py:262-291 | the scan over the reel entries equals the slot function (duplicate, insert-before index, or end) |
| BatchIndex.ReelSlotExactly | nebraska/fix_lccn_by_date.py:268-291 | on well-formed entries the scan stops at the first entry that holds the key or that the copied reel sorts strictly before, and passes every entry before it |
| BatchIndex.FirstContaining | nebraska/fix_lccn_by_date.py:312-320 | finds the first reel entry whose text holds the key; fails exactly when an entry without text comes first |
| BatchIndex.FindFirstContaining | nebraska/fix_lccn_by_date.py:312-320 | the deleted-reel loop equals that search |
| BatchIndex.AddCopiedReel | nebraska/fix_lccn_by_date.py:294-307 | either nothing is inserted and the children stay, or exactly one entry is added |
| BatchIndex.AddCopiedReelEntry | nebraska/fix_lccn_by_date.py:262-307 | the in-place insertion leaves the children as the function says, or reports the failure |
| BatchIndex.DropDeletedReelEntry | nebraska/fix_lccn_by_date.py:310-320 | the in-place removal leaves the children as the function says, or reports the failure |
| BatchIndex.UpdateReelEntries | nebraska/fix_lccn_by_date.py:258-320 | both reel updates in place leave the index as the function says, or report the failure |
| BatchIndex.LayoutFindall | nebraska/fix_lccn_by_date.py:282 | with `c` issue entries ahead of the reels, `len(issues) + reel_index` is the child position of the reel entry scanned |
| BatchIndex.InsertKeepsSorted | nebraska/fix_lccn_by_date.py:305 | inserting a reel entry between neighbours it fits keeps the index sorted |
| BatchIndex.RemoveKeepsSorted | nebraska/fix_lccn_by_date.py:319 | removing a reel entry keeps the index sorted |
| BatchIndex.NewReelEntryReadsBack | nebraska/fix_lccn_by_date.py:299-301 | the entry built for `<lccn>/<reel>` has `reelNumber = reel` and text `<lccn>/<reel>/<reel>.xml`, and reads back as that reel and LCCN number |
| BatchIndex.ReelKeyNumber | nebraska/fix_lccn_by_date.py:264 | the key's last eleven characters are the reel number |
| BatchIndex.CopiedReelScan | nebraska/fix_lccn_by_date.py:268-291 | on a sorted index the scan finds the key, or a slot before a later reel, or the end |
| BatchIndex.CopiedReelPlaced | nebraska/fix_lccn_by_date.py:304-305 | the copied reel's entry lands right after every entry it does not sort before |
| BatchIndex.AddCopiedReelBySlot | nebraska/fix_lccn_by_date.py:304-307 | the insertion follows the scan: a duplicate changes nothing, index 0 and "no later reel" append |
| BatchIndex.CopiedReelKeepsOrder | nebraska/fix_lccn_by_date.py:262-307 | with at least one issue entry, adding a copied reel never fails and keeps the reel entries sorted by reel number, then LCCN |
| BatchIndex.IndexZeroAppends | nebraska/fix_lccn_by_date.py:304-307 | with no issue entry, a copied reel that belongs first is appended instead and the index is no longer sorted |
| BatchIndex.DropDeletedReelFails | nebraska/fix_lccn_by_date.py:314 | removing the deleted reel fails exactly when a reel entry without text comes before any entry holding the key |
| BatchIndex.DropDeletedReelRemoves | nebraska/fix_lccn_by_date.py:310-320 | it removes the first reel entry holding the key, found where the insertion moved it, or changes nothing when no entry holds it |
| BatchIndex.DropKeepsSorted | nebraska/fix_lccn_by_date.py:310-320 | when the search for the deleted reel does not fail and finds a reel entry, removing it from a sorted index never fails and keeps it sorted |
| BatchIndex.ReelSearchOk | nebraska/fix_lccn_by_date.py:310-314 | in the index layout the search for the deleted reel never meets an entry without text, and what it finds is a reel entry |
| BatchIndex.ReelUpdatesKeepOrder | nebraska/fix_lccn_by_date.py:258-320 | both reel updates together never fail on a sorted index with an issue entry, and keep it sorted |
| Effects.RunEachExactly | nebraska/fix_dates_by_lccn.py:112-113 | a loop whose steps may raise stops exactly at the first step that raises, performs only operations of steps that did not, and performs all of them when none raises |
| Effects.Parse | nebraska/fix_dates_by_lccn.py:220 | `ET.parse` yields the document, or raises exactly when the file cannot be read |
| Effects.AltoNameIsXmlName | nebraska/fix_dates_by_lccn.py:119-121 | every ALTO page name also passes the `.xml` test |
| Effects.BatchFiles | nebraska/fix_dates_by_lccn.py:209 | exactly two batch index files are handled |
| FixDates.FixAltoContent | nebraska/fix_dates_by_lccn.py:134-139 | the in-place ALTO loop equals the ALTO fix as written, or reports its failure |
| FixDates.AsWrittenMissesNamespaced | nebraska/fix_dates_by_lccn.py:135 | as written, the ALTO fix changes nothing in a document whose tags all carry a namespace |
| FixDates.FixStringsExactly | nebraska/fix_dates_by_lccn.py:134-139 | under either selection, the ALTO fix fails exactly on a selected `String` without `CONTENT`; each selected `String` holding the bad date has it replaced; all else is unchanged |
| FixDates.FixStringsSettles | nebraska/fix_dates_by_lccn.py:134-139 | running the ALTO fix on its own output gives that output back, once no replaced `CONTENT` holds the bad date |
| FixDates.AltoPageExample | nebraska/fix_dates_by_lccn.py:135-139 | on a concrete namespaced page the fix as written leaves the bad date, and the corrected one replaces it |
| FixDates.AltoPageWrittenBack | nebraska/fix_dates_by_lccn.py:119-142 | outside a dry run, that page listed as `0001.xml` is written back exactly as it was read |
| FixDates.FixMetsDateFields | nebraska/fix_dates_by_lccn.py:159-166 | the in-place METS fix equals the METS date function, or reports its failure |
| FixDates.FixMetsDatesExactly | nebraska/fix_dates_by_lccn.py:159-166 | it fails exactly without `LABEL`, without `dateIssued` or without its text; `LABEL` changes only when it holds the bad date; only the first `dateIssued` changes among the descendants |
| FixDates.FixMetsDatesSettles | nebraska/fix_dates_by_lccn.py:159-166 | running the METS fix on its own output gives that output back, once neither `LABEL` nor the `dateIssued` text holds the bad date |
| FixDates.Fd | nebraska/fix_dates_by_lccn.py:60-62 | the file-name form of a date holds no hyphen |
| FixDates.FdOfDate | nebraska/fix_dates_by_lccn.py:60-62 | the file-name form of `YYYY-MM-DD` is `YYYYMMDD`: the three parts kept, in order |
| FixDates.RedatedName | nebraska/fix_dates_by_lccn.py:192 | an issue directory name, the hyphen-free bad date plus a two-digit edition, becomes the hyphen-free new date plus the same edition |
| FixDates.FixDateFile | nebraska/fix_dates_by_lccn.py:113-188 | one listed name's step equals its function |
| FixDates.DateFileOpsExactly | nebraska/fix_dates_by_lccn.py:113-188 | a name without `.xml`, or any name in a dry run, gives nothing; otherwise the step fails exactly when the file is unreadable or its fix (the ALTO fix as written, or the METS fix) raises; the write comes first; a METS file whose name holds the bad date is renamed |
| FixDates.RedateBatchFile | nebraska/fix_dates_by_lccn.py:219-234 | one index file's step equals its function |
| FixDates.BatchOpsExactly | nebraska/fix_dates_by_lccn.py:220-234 | an index file fails exactly when unreadable or when re-dating fails, and is otherwise written back re-dated |
| FixDates.FixDateFiles | nebraska/fix_dates_by_lccn.py:112-188 | the listing loop equals the fallible-loop function over its steps |
| FixDates.RedateBatchFiles | nebraska/fix_dates_by_lccn.py:214-234 | the index loop equals the fallible-loop function over its steps |
| FixDates.FixDatesIn | nebraska/fix_dates_by_lccn.py:111-234 | `fix_dates` on one directory equals the run function: files, then the directory rename, then both index files |
| FixDates.DryRunDoesNothing | nebraska/fix_dates_by_lccn.py:124-205 | a dry run performs nothing and raises nothing |
| FixDates.DateRunOpsExpected | nebraska/fix_dates_by_lccn.py:111-234 | every operation of a run is a listed XML file's own write, patch or rename, the directory rename, or a re-dated index write, whether or not the run raises |
| FixDates.DateRunComplete | nebraska/fix_dates_by_lccn.py:180-234 | a run outside a dry run that raises nothing has renamed every METS file whose name holds the bad date, renamed the directory and written both index files |
| FixDates.PathJoinAppends | nebraska/fix_dates_by_lccn.py:182 | joining a directory with slash-free names is injective in the name |
| FixDates.AltoFilesNeverRenamed | nebraska/fix_dates_by_lccn.py:180-188 | no ALTO page file is ever renamed |
| FixLccn.SetMetsIdentifier | nebraska/fix_lccn_by_date.py:151-155 | the in-place METS fix equals the LCCN function, or reports its failure |
| FixLccn.FixMetsLccnExactly | nebraska/fix_lccn_by_date.py:151-155 | it fails exactly when there is no `mods:identifier`; otherwise the first one reads the correct LCCN and nothing else changes |
| FixLccn.FixMetsLccnIdempotent | nebraska/fix_lccn_by_date.py:155 | fixing a fixed manifest changes nothing |
| FixLccn.FirstIdentifierStays | nebraska/fix_lccn_by_date.py:152 | overwriting the first identifier keeps it the first |
| FixLccn.SnLccnsAreSafe | nebraska/fix_lccn_by_date.py:169 | replacing one `sn` LCCN by another is a safe replacement |
| FixLccn.RelocationSettles | nebraska/fix_lccn_by_date.py:169 | the relocated path holds no bad LCCN, and relocating again changes nothing |
| FixLccn.FixLccnFile | nebraska/fix_lccn_by_date.py:120-165 | one listed name's step equals its function |
| FixLccn.FixLccnFiles | nebraska/fix_lccn_by_date.py:120-165 | the listing loop equals the fallible-loop function over its steps |
| FixLccn.LccnFileOpsExactly | nebraska/fix_lccn_by_date.py:120-165 | a non-XML name, an ALTO page or a dry run gives nothing; otherwise the step fails exactly when the manifest is unreadable or lacks an identifier; it writes back the fixed manifest and patches it, and nothing else |
| FixLccn.LccnFileRunOnlyWrites | nebraska/fix_lccn_by_date.py:120-165 | the file loop only writes and patches METS files |
| FixLccn.MoveReelFiles | nebraska/fix_lccn_by_date.py:189-219 | the reel step records copied and deleted as the function decides and performs its operations |
| FixLccn.ReelOpsExactly | nebraska/fix_lccn_by_date.py:189-219 | outside a dry run the reel files are copied exactly when the new place lacks the reel manifest; the old reel directory is removed exactly when it has no subdirectory; its LCCN directory is removed exactly when it then has no subdirectory |
| FixLccn.ReelTailOfPath | nebraska/fix_lccn_by_date.py:183-185 | the corrected reel key of `<batch>/<lccn>/<reel>` is `<lccn>/<reel>` |
| FixLccn.AsWrittenReelNumber | nebraska/fix_lccn_by_date.py:299 | with the key as written, the copied reel's `reelNumber` is the first directory of the absolute path |
| FixLccn.AsWrittenKeyNeverMatches | nebraska/fix_lccn_by_date.py:270 | with the key as written, an entry whose text is shorter than the absolute reel path never matches it |
| FixLccn.AsWrittenDeletedReelStays | nebraska/fix_lccn_by_date.py:310-320 | with the key as written, when every reel entry is shorter than the reel's path, the update for a deleted reel gives the index back unchanged |
| FixLccn.LccnBatchFile | nebraska/fix_lccn_by_date.py:237-323 | one index file's step equals its function |
| FixLccn.LccnBatchFiles | nebraska/fix_lccn_by_date.py:237-323 | the index loop equals the fallible-loop function over its steps |
| FixLccn.LccnBatchOpsExactly | nebraska/fix_lccn_by_date.py:241-323 | an index file fails exactly when unreadable, on an issue entry without text, or when the reel update raises; otherwise it is written back once, or not at all in a dry run |
| FixLccn.LccnBatchRunOnlyWrites | nebraska/fix_lccn_by_date.py:237-323 | the index loop only writes the index files, and none in a dry run |
| FixLccn.FixLccnIn | nebraska/fix_lccn_by_date.py:119-323 | `fix_lccns` on one issue equals the run function: files, then move, reel operations and both index files, with the whole reel paths as the reel keys |
| FixLccn.AsWrittenIndexMissing | nebraska/fix_lccn_by_date.py:230-242 | when the first index file cannot be read in the directory the pattern yields, the run raises at it, with the issue already moved and every reel operation already performed |
| FixLccn.LccnDryRunDoesNothing | nebraska/fix_lccn_by_date.py:128-323 | a dry run writes, moves, copies and removes nothing |
| FixLccn.LccnRunStopsAtMets | nebraska/fix_lccn_by_date.py:148-155 | when a manifest cannot be fixed the run raises, and has done nothing but write and patch manifests |
| FixLccn.ReelBookkeeping | nebraska/fix_lccn_by_date.py:167-219 | once the manifests are fixed, outside a dry run, the issue is moved to its relocated path and the reel copy and removals happen exactly as the reel decisions say |
| FixLccn.RelabelKeepsSorted | nebraska/fix_lccn_by_date.py:245-256 | repointing issue entries keeps a sorted index sorted |
| FixLccn.BatchIndexStaysSorted | nebraska/fix_lccn_by_date.py:258-320 | with the corrected reel key, the full index update never fails on a sorted index with an issue entry, and keeps it sorted |

## Left out

- Argument parsing, the `search_dir` default and override, and all console
  output (`quiet`, `verbose`, the progress lines) are not modelled.
- The two `__main__` loops chain the locators and the per-issue repairs.
  They are not modelled as one loop, because each repair changes the tree
  that the next one walks. Each repair is modelled on the observations it
  makes.
- ElementTree is not modelled: parsing and serialisation, namespace
  registration and the comment-keeping parser. A written document is the
  `WriteXml` operation; `root.iter()` is modelled over elements, not
  comments.
- The regular expressions that pick the index directory, the issue path
  tail and the reel paths out of an issue path are not modelled. Their
  results are parameters, and a failed match (an exception in the scripts)
  is not modelled. In the date fix the index directory is the batch
  directory; in the LCCN fix, as written, it is the old LCCN directory (see
  Findings), and `Issue.batchPath` holds whichever directory is given.
- The bad LCCN and the bad date are used as regular expressions. They are
  modelled as literal text, which they are for `sn` LCCNs and `YYYYMMDD`
  dates.
- The filesystem operations are modelled as data: the order `os.walk` and
  `os.listdir` yield, the intermediate directories `os.renames`
  creates and prunes, the per-file `shutil.copy2` of the `*.*` glob
  (modelled as one copy operation), and failures of rename, copy and
  `rmtree` are all outside the model.
- The start and end dates arrive at the window locator already parsed;
  `strptime` on the arguments is not modelled.
- Strings.ParseNat: `int()` also accepts surrounding whitespace and a sign.
  Reel numbers and LCCN digits never carry them, so the model accepts
  digits only.
- Locate.ParseDate8: `strptime`'s `%m` and `%d` also accept a single digit
  after a space (` 1` to ` 9`). Issue directory names always carry two
  digits, so the model accepts eight digits only.
- Xml.XmlTree.Insert and Xml.XmlTree.RemoveAt treat every descendant as a
  child of the root, as the flat batch index is. Nested indexes are not
  modelled.

## Behaviour of the code worth knowing

- The date fix renames the issue directory by replacing the hyphen-free bad
  date anywhere in its full path, not only in its last component
  (`nebraska/fix_dates_by_lccn.py:192`). `Redated` does the same.
- Both scripts parse `batch_1.xml` unconditionally
  (`nebraska/fix_dates_by_lccn.py:209-220`), so a missing `batch_1.xml`
  raises. The model does the same.
- In a dry run the date fix reads no document and skips the index files
  altogether (`nebraska/fix_dates_by_lccn.py:124`, `205`). The LCCN fix in a
  dry run still reads both index files and updates them in memory, which
  can raise; only its writes are skipped. `DryRunDoesNothing` and
  `LccnDryRunDoesNothing` state these two behaviours.
- A missing element or attribute raises an exception that ends the whole
  run, not only the current document. The model has a failure stop the run
  (`Effects.RunEach`).
- Nothing checks whether a rename or copy target already exists, and the
  model has no such check either.

## Findings

The runs follow the code as written: `FixDatesIn` applies the ALTO fix as
written (`FixAltoAsWritten`), and `FixLccnIn` hands the whole reel paths to
the index update. The corrected definitions (`FixAlto`, `ReelTail`) sit
beside them, with the intended properties proved about them. The LCCN fix's
index directory is a parameter of the run: `AsWrittenIndexMissing` gives it
the directory the pattern yields, and the index lemmas
(`LccnBatchOpsExactly`, `BatchIndexStaysSorted`) describe the index files of
the batch directory the code means.

| source | as written | input that shows it | evidently intended | confidence | as-written member | corrected member |
|---|---|---|---|---|---|---|
| nebraska/fix_dates_by_lccn.py:135 | `root.findall("PrintSpace//String")` uses tags without a namespace and looks for `PrintSpace` only among the root's children | any ALTO page: its tags are namespace-qualified and `PrintSpace` sits under `Layout/Page` (the page of `AltoPageExample`, written back unchanged by `AltoPageWrittenBack`) | every ALTO `String` below an ALTO `PrintSpace` (`FixDates.FixAlto`) | high; not executed | FixDates.AltoPageWrittenBack | FixDates.FixStringsExactly |
| nebraska/fix_lccn_by_date.py:183-185 | the reel "tail" pattern is anchored at the start of the absolute path, so the key is the whole path | reel path `/opt/batches/b1/sn12345678/00271761234`: the new entry's `reelNumber` is `opt` (line 299), and relative index entries never contain the key (lines 270, 314; `AsWrittenDeletedReelStays`) | the last two components, `sn12345678/00271761234` | high; not executed | FixLccn.AsWrittenReelNumber | FixLccn.ReelTailOfPath |
| nebraska/fix_lccn_by_date.py:230-231 | `^(.+)\/(?:sn)?[0-9]+\/` with a greedy `.+`: `(?:sn)?[0-9]+` also matches the 11-digit reel component, so the group is the old LCCN directory | issue path `/b/sn12345678/00271761234/1900010101`: the group is `/b/sn12345678`, and `ET.parse` of `/b/sn12345678/batch.xml` (line 242) raises after the move (line 174), the reel copy (line 196) and the removals (lines 206, 216) | the batch directory `/b`, as the date fix's `sn[0-9]{8}` pattern gives (`nebraska/fix_dates_by_lccn.py:207`) | high; not executed | FixLccn.AsWrittenIndexMissing | FixLccn.LccnBatchOpsExactly |
