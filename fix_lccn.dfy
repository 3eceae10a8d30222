/**
 * The LCCN repair (`fix_lccns` of fix_lccn_by_date.py) for one issue
 * directory filed under a bad LCCN: the issue's METS manifests get the
 * correct LCCN as their identifier, the directory moves to the path with
 * the correct LCCN, the reel files follow it when the new place lacks them
 * and are deleted from the old place when no issue is left there, and both
 * batch index files repoint the issue and record the reel changes.
 */
module FixLccn {
  import opened Wrappers
  import opened Errors
  import opened Strings
  import opened Xml
  import opened BatchIndex
  import opened Effects

  // ---------------------------------------------------------------------------
  // METS issue manifests

  /** The first `mods:identifier` gets the correct LCCN as its whole text; none raises. */
  function FixMetsLccn(doc: Document, correct: string): Result<Document, Error>
  {
    match FindFirst(doc.nodes, ModsIdentifier)
    case None => Err(MissingElement(ModsIdentifier))
    case Some(k) => Ok(Document(doc.root, doc.nodes[k := doc.nodes[k].(text := Some(correct))]))
  }

  method SetMetsIdentifier(t: XmlTree, correct: string) returns (failure: Option<Error>)
    modifies t
    ensures failure.None? <==> FixMetsLccn(old(t.Doc()), correct).Ok?
    ensures failure.Some? ==> FixMetsLccn(old(t.Doc()), correct) == Err(failure.value)
    ensures failure.None? ==> t.Doc() == FixMetsLccn(old(t.Doc()), correct).value
  {
    var k := FindFirst(t.nodes, ModsIdentifier);
    if k.None? {
      return Some(MissingElement(ModsIdentifier));
    }
    t.SetText(k.value, correct);
    return None;
  }

  /**
   * The METS fix fails exactly when there is no `mods:identifier`; otherwise
   * the first one reads the correct LCCN and nothing else changes.
   */
  lemma FixMetsLccnExactly(doc: Document, correct: string)
    ensures FixMetsLccn(doc, correct).Err? <==> forall i :: 0 <= i < |doc.nodes| ==> doc.nodes[i].tag != ModsIdentifier
    ensures FixMetsLccn(doc, correct).Ok? ==>
              var out := FixMetsLccn(doc, correct).value;
              var k := FindFirst(doc.nodes, ModsIdentifier).value;
              && out.root == doc.root && |out.nodes| == |doc.nodes|
              && out.nodes[k].text == Some(correct)
              && out.nodes[k].tag == ModsIdentifier && out.nodes[k].ancestors == doc.nodes[k].ancestors
              && out.nodes[k].attrs == doc.nodes[k].attrs
              && (forall j :: 0 <= j < |doc.nodes| && j != k ==> out.nodes[j] == doc.nodes[j])
  {
    if FindFirst(doc.nodes, ModsIdentifier).None? {
    } else {
      var k := FindFirst(doc.nodes, ModsIdentifier).value;
      assert doc.nodes[k].tag == ModsIdentifier;
    }
  }

  /** The identifier is overwritten, not edited: fixing a fixed manifest changes nothing. */
  lemma FixMetsLccnIdempotent(doc: Document, correct: string)
    requires FixMetsLccn(doc, correct).Ok?
    ensures FixMetsLccn(FixMetsLccn(doc, correct).value, correct) == FixMetsLccn(doc, correct)
  {
    var out := FixMetsLccn(doc, correct).value;
    var k := FindFirst(doc.nodes, ModsIdentifier).value;
    FirstIdentifierStays(doc.nodes, k, out.nodes[k]);
    assert out.nodes[k := out.nodes[k].(text := Some(correct))] == out.nodes;
  }

  /** Replacing the first element of a tag by another of the same tag keeps it first. */
  lemma FirstIdentifierStays(nodes: seq<Element>, k: nat, e: Element)
    requires FindFirst(nodes, ModsIdentifier) == Some(k) && e.tag == ModsIdentifier
    ensures FindFirst(nodes[k := e], ModsIdentifier) == Some(k)
  {
    var out := nodes[k := e];
    assert forall j :: 0 <= j < k ==> out[j] == nodes[j];
    assert out[k].tag == ModsIdentifier;
  }

  // ---------------------------------------------------------------------------
  // Moving the issue

  /** The issue's new path: every bad LCCN in the old path replaced by the correct one. */
  function Relocated(p: string, bad: string, correct: string): string
  {
    ReplaceAll(p, bad, correct)
  }

  /** An LCCN of the `sn` series: `sn` and eight digits. */
  predicate IsSnLccn(l: string)
  {
    |l| == 10 && l[..2] == "sn" && AllDigits(l[2..])
  }

  /** Between two different `sn` LCCNs the replacement is safe: it cannot leave or create a bad one. */
  lemma SnLccnsAreSafe(bad: string, correct: string)
    requires IsSnLccn(bad) && IsSnLccn(correct) && bad != correct
    ensures Safe(bad, correct)
  {
    assert bad[0] == 's' && correct[0] == 's';
    forall i | 1 <= i < 10
      ensures bad[i] != 's' && correct[i] != 's'
    {
      if i >= 2 {
        assert bad[i] == bad[2..][i - 2] && correct[i] == correct[2..][i - 2];
      } else {
        assert bad[1] == "sn"[1] && correct[1] == "sn"[1];
      }
    }
  }

  /**
   * Between two different `sn` LCCNs, the relocated path holds no bad LCCN,
   * and relocating it again leaves it where it is.
   */
  lemma RelocationSettles(p: string, bad: string, correct: string)
    requires IsSnLccn(bad) && IsSnLccn(correct) && bad != correct
    ensures !Contains(Relocated(p, bad, correct), bad)
    ensures Relocated(Relocated(p, bad, correct), bad, correct) == Relocated(p, bad, correct)
  {
    SnLccnsAreSafe(bad, correct);
    ReplaceAllClears(p, bad, correct);
    ReplaceAllIdempotent(p, bad, correct);
  }

  /** One listed name: a METS file gets its identifier fixed and is written back and patched. */
  function LccnFileOps(dir: string, f: string, docs: map<string, Document>, correct: string, dryRun: bool)
    : Result<seq<FsOp>, Error>
  {
    if !IsXmlName(f) || dryRun || IsAltoName(f) then Ok([])
    else
      var path := PathJoin(dir, f);
      match Parse(docs, path)
      case Err(err) => Err(err)
      case Ok(doc) =>
        match FixMetsLccn(doc, correct)
        case Err(err) => Err(err)
        case Ok(fixed) => Ok([WriteXml(path, fixed), PatchStructMapIn(path)])
  }

  method FixLccnFile(dir: string, f: string, docs: map<string, Document>, correct: string, dryRun: bool)
    returns (r: Result<seq<FsOp>, Error>)
    ensures r == LccnFileOps(dir, f, docs, correct, dryRun)
  {
    if !IsXmlName(f) || dryRun || IsAltoName(f) {
      return Ok([]);
    }
    var path := PathJoin(dir, f);
    if path !in docs {
      return Err(Unreadable(path));
    }
    var t := new XmlTree(docs[path]);
    var failure := SetMetsIdentifier(t, correct);
    if failure.Some? {
      return Err(failure.value);
    }
    return Ok([WriteXml(path, t.Doc()), PatchStructMapIn(path)]);
  }

  /** The loop over the directory listing. */
  method FixLccnFiles(dir: string, files: seq<string>, docs: map<string, Document>, correct: string, dryRun: bool)
    returns (out: Outcome)
    ensures out == RunEach(files, f => LccnFileOps(dir, f, docs, correct, dryRun))
  {
    var ops: seq<FsOp> := [];
    var i := 0;
    while i < |files|
      invariant 0 <= i <= |files|
      invariant After(ops, RunEach(files[i..], f => LccnFileOps(dir, f, docs, correct, dryRun)))
                == RunEach(files, f => LccnFileOps(dir, f, docs, correct, dryRun))
    {
      var r := FixLccnFile(dir, files[i], docs, correct, dryRun);
      assert files[i..][0] == files[i] && files[i..][1..] == files[i + 1..];
      if r.Err? {
        return Outcome(ops, Some(r.error));
      }
      AfterAfter(ops, r.value, RunEach(files[i + 1..], f => LccnFileOps(dir, f, docs, correct, dryRun)));
      ops := ops + r.value;
      i := i + 1;
    }
    assert files[i..] == [];
    return Outcome(ops, None);
  }

  // ---------------------------------------------------------------------------
  // Reels

  /** The reel's own manifest in its new place: `<new reel path>/<reel number>.xml`. */
  function ReelManifest(newReelPath: string): string
  {
    newReelPath + "/" + Last(newReelPath, 11) + ".xml"
  }

  /** The reel is copied, and recorded as copied even in a dry run, when its manifest is missing from the new place. */
  predicate ReelCopied(newReelPath: string, present: set<string>)
  {
    ReelManifest(newReelPath) !in present
  }

  /**
   * The reel is deleted, and recorded as deleted, when the first step of the
   * walk of the old reel directory finds no subdirectory. `listing` is that
   * step's subdirectory names, `None` when the directory does not exist and
   * the walk yields nothing.
   */
  predicate ReelDeleted(listing: Option<seq<string>>)
  {
    listing == Some([])
  }

  /** The LCCN directory holding a reel directory: `reel_path[:-12]`. */
  function LccnDir(reelPath: string): string
  {
    DropLast(reelPath, 12)
  }

  /**
   * The reel operations: the copy of the reel files to the new place, then
   * the removal of the old reel directory and, when the LCCN directory then
   * has no subdirectory (`lccnListing`, observed at that moment), of that
   * directory too. A dry run decides but performs none of them.
   */
  function ReelOps(reelPath: string, newReelPath: string, present: set<string>,
                   reelListing: Option<seq<string>>, lccnListing: Option<seq<string>>, dryRun: bool): seq<FsOp>
  {
    if dryRun then []
    else
      (if ReelCopied(newReelPath, present) then [CopyReelFiles(reelPath, newReelPath)] else [])
      + (if !ReelDeleted(reelListing) then []
         else [RemoveTree(reelPath)] + (if lccnListing == Some([]) then [RemoveTree(LccnDir(reelPath))] else []))
  }

  method MoveReelFiles(reelPath: string, newReelPath: string, present: set<string>,
                       reelListing: Option<seq<string>>, lccnListing: Option<seq<string>>, dryRun: bool)
    returns (copied: bool, deleted: bool, ops: seq<FsOp>)
    ensures copied == ReelCopied(newReelPath, present) && deleted == ReelDeleted(reelListing)
    ensures ops == ReelOps(reelPath, newReelPath, present, reelListing, lccnListing, dryRun)
  {
    ops := [];
    copied := false;
    deleted := false;
    if ReelManifest(newReelPath) !in present {
      if !dryRun {
        ops := ops + [CopyReelFiles(reelPath, newReelPath)];
      }
      copied := true;
    }
    if reelListing.Some? && |reelListing.value| == 0 {
      if !dryRun {
        ops := ops + [RemoveTree(reelPath)];
      }
      deleted := true;
      if lccnListing.Some? && |lccnListing.value| == 0 && !dryRun {
        ops := ops + [RemoveTree(LccnDir(reelPath))];
      }
    }
  }

  /**
   * The corrected key for a reel in the batch index: the last two
   * components of its path, `<lccn>/<reel number>`, as the index's paths are
   * relative to the batch. The run as written uses the whole path instead.
   */
  function ReelTail(p: string): string
  {
    var parts := Split(p, '/');
    if |parts| < 2 then p else parts[|parts| - 2] + "/" + parts[|parts| - 1]
  }

  /** The key of a reel directory `<batch>/<lccn>/<reel number>` is `<lccn>/<reel number>`. */
  lemma ReelTailOfPath(batch: string, lccn: string, reel: string)
    requires '/' !in lccn && '/' !in reel
    ensures ReelTail(batch + "/" + lccn + "/" + reel) == lccn + "/" + reel
  {
    SplitConcat(batch, lccn + "/" + reel, '/');
    SplitAfterSep(lccn, reel, '/');
    SplitNoSep(reel, '/');
    assert batch + "/" + lccn + "/" + reel == batch + ['/'] + (lccn + "/" + reel);
    assert lccn + "/" + reel == lccn + ['/'] + reel;
  }

  /**
   * As written the key is the whole absolute reel path (the "tail"
   * expression matches all of it). The entry made for a copied reel then
   * takes its `reelNumber` from the path's first directory, not the reel.
   */
  lemma AsWrittenReelNumber(top: string, rest: string, rootTag: string)
    requires '/' !in top
    ensures NewReelEntry("/" + top + "/" + rest, rootTag).Ok?
    ensures NewReelEntry("/" + top + "/" + rest, rootTag).value.Get("reelNumber") == Some(top)
  {
    SplitConcat("", top + "/" + rest, '/');
    SplitConcat(top, rest, '/');
    SplitNoSep(top, '/');
    assert "/" + top + "/" + rest == "" + ['/'] + (top + ['/'] + rest);
    assert top + "/" + rest == top + ['/'] + rest;
  }

  /**
   * As written, an entry whose relative path is shorter than the absolute
   * reel path never matches it: the duplicate check never finds the copied
   * reel and the deleted reel's entry is never removed.
   */
  lemma AsWrittenKeyNeverMatches(e: Element, reelPath: string)
    requires e.text.Some? && |e.text.value| < |reelPath|
    ensures !HoldsKey(e, reelPath)
  {
    ContainsNotLonger(e.text.value, reelPath);
  }

  /**
   * As written, a deleted reel's entry is never dropped: when every reel
   * entry of the index has a text shorter than the reel's whole path, the
   * update for the deleted reel gives the index back unchanged.
   */
  lemma AsWrittenDeletedReelStays(doc: Document, reelPath: string, correct: string)
    requires forall i :: 0 <= i < |doc.nodes| && doc.nodes[i].tag == NdnpReel ==>
               doc.nodes[i].text.Some? && |doc.nodes[i].text.value| < |reelPath|
    ensures UpdateReels(doc, None, Some(reelPath), correct) == Ok(doc)
  {
    var reels := WithTag(doc.nodes, NdnpReel);
    var pos := TagPositions(doc.nodes, NdnpReel);
    WithTagHasTag(doc.nodes, NdnpReel);
    forall j | 0 <= j < |reels|
      ensures reels[j].text.Some? && !HoldsKey(reels[j], reelPath)
    {
      assert reels[j] == doc.nodes[pos[j]];
      AsWrittenKeyNeverMatches(reels[j], reelPath);
    }
    assert FirstContaining(reels, reelPath) == Ok(None);
  }

  // ---------------------------------------------------------------------------
  // Batch index files

  /**
   * One batch index file: read; the fixed issue's entries repointed; the
   * copied reel entered and the deleted reel's entry dropped; written back
   * unless in a dry run.
   */
  function LccnBatchOps(path: string, docs: map<string, Document>, issueTail: string, bad: string, correct: string,
                        copied: Option<string>, deleted: Option<string>, dryRun: bool): Result<seq<FsOp>, Error>
  {
    match Parse(docs, path)
    case Err(err) => Err(err)
    case Ok(doc) =>
      match RelabelIssues(doc.nodes, issueTail, bad, correct)
      case Err(err) => Err(err)
      case Ok(nodes) =>
        match UpdateReels(Document(doc.root, nodes), copied, deleted, correct)
        case Err(err) => Err(err)
        case Ok(fixed) => Ok(if dryRun then [] else [WriteXml(path, fixed)])
  }

  method LccnBatchFile(path: string, docs: map<string, Document>, issueTail: string, bad: string, correct: string,
                       copied: Option<string>, deleted: Option<string>, dryRun: bool) returns (r: Result<seq<FsOp>, Error>)
    ensures r == LccnBatchOps(path, docs, issueTail, bad, correct, copied, deleted, dryRun)
  {
    if path !in docs {
      return Err(Unreadable(path));
    }
    var t := new XmlTree(docs[path]);
    var failure := RelabelIssueEntries(t, issueTail, bad, correct);
    if failure.Some? {
      return Err(failure.value);
    }
    failure := UpdateReelEntries(t, copied, deleted, correct);
    if failure.Some? {
      return Err(failure.value);
    }
    if dryRun {
      return Ok([]);
    }
    return Ok([WriteXml(path, t.Doc())]);
  }

  /** The loop over both batch index files. */
  method LccnBatchFiles(batches: seq<string>, docs: map<string, Document>, issueTail: string, bad: string, correct: string,
                        copied: Option<string>, deleted: Option<string>, dryRun: bool) returns (out: Outcome)
    ensures out == RunEach(batches, b => LccnBatchOps(b, docs, issueTail, bad, correct, copied, deleted, dryRun))
  {
    var ops: seq<FsOp> := [];
    var j := 0;
    while j < |batches|
      invariant 0 <= j <= |batches|
      invariant After(ops, RunEach(batches[j..], b => LccnBatchOps(b, docs, issueTail, bad, correct, copied, deleted, dryRun)))
                == RunEach(batches, b => LccnBatchOps(b, docs, issueTail, bad, correct, copied, deleted, dryRun))
    {
      var r := LccnBatchFile(batches[j], docs, issueTail, bad, correct, copied, deleted, dryRun);
      assert batches[j..][0] == batches[j] && batches[j..][1..] == batches[j + 1..];
      if r.Err? {
        return Outcome(ops, Some(r.error));
      }
      AfterAfter(ops, r.value, RunEach(batches[j + 1..], b => LccnBatchOps(b, docs, issueTail, bad, correct, copied, deleted, dryRun)));
      ops := ops + r.value;
      j := j + 1;
    }
    assert batches[j..] == [];
    return Outcome(ops, None);
  }

  // ---------------------------------------------------------------------------
  // One issue directory

  /**
   * What the filesystem looks like where the repair of one issue looks at
   * it: the issue directory and its listing, the documents that can be read,
   * the reel directories (old and new) the issue belongs to, which files
   * exist, the old reel directory's and the LCCN directory's subdirectories,
   * the directory the index files are opened in, and the issue's path from
   * the bad LCCN on. As written the index directory is the old LCCN
   * directory, not the batch directory (see `AsWrittenIndexMissing`).
   */
  datatype Issue = Issue(
    dir: string,
    files: seq<string>,
    docs: map<string, Document>,
    reelPath: string,
    newReelPath: string,
    present: set<string>,
    reelListing: Option<seq<string>>,
    lccnListing: Option<seq<string>>,
    batchPath: string,
    issueTail: string)

  /**
   * The reel keys handed to the batch index: the copied reel's and the
   * deleted reel's. As written each key is the reel's whole path (see
   * `AsWrittenReelNumber` and `AsWrittenDeletedReelStays`).
   */
  function CopiedKey(issue: Issue): Option<string>
  {
    if ReelCopied(issue.newReelPath, issue.present) then Some(issue.newReelPath) else None
  }

  function DeletedKey(issue: Issue): Option<string>
  {
    if ReelDeleted(issue.reelListing) then Some(issue.reelPath) else None
  }

  /**
   * `fix_lccns` on one issue: every listed file in turn; then the move of
   * the issue directory, the reel operations, and both batch index files.
   */
  function LccnFixRun(issue: Issue, bad: string, correct: string, dryRun: bool): Outcome
  {
    var fileRun := RunEach(issue.files, f => LccnFileOps(issue.dir, f, issue.docs, correct, dryRun));
    if fileRun.error.Some? then fileRun
    else
      var move := if dryRun then [] else [Rename(issue.dir, Relocated(issue.dir, bad, correct))];
      After(fileRun.ops,
            After(move + ReelOps(issue.reelPath, issue.newReelPath, issue.present, issue.reelListing, issue.lccnListing, dryRun),
                  RunEach(BatchFiles(issue.batchPath),
                          b => LccnBatchOps(b, issue.docs, issue.issueTail, bad, correct, CopiedKey(issue), DeletedKey(issue), dryRun))))
  }

  /**
   * As written the index files are looked for in the old LCCN directory.
   * When the first one cannot be read there, the run raises at it, after
   * the issue has been moved and every reel operation has been performed.
   */
  lemma AsWrittenIndexMissing(issue: Issue, bad: string, correct: string)
    requires RunEach(issue.files, f => LccnFileOps(issue.dir, f, issue.docs, correct, false)).error.None?
    requires BatchFiles(issue.batchPath)[0] !in issue.docs
    ensures var run := LccnFixRun(issue, bad, correct, false);
            && run.error == Some(Unreadable(BatchFiles(issue.batchPath)[0]))
            && Rename(issue.dir, Relocated(issue.dir, bad, correct)) in run.ops
            && forall op :: op in ReelOps(issue.reelPath, issue.newReelPath, issue.present, issue.reelListing, issue.lccnListing, false)
                 ==> op in run.ops
  {
    var step := b => LccnBatchOps(b, issue.docs, issue.issueTail, bad, correct, CopiedKey(issue), DeletedKey(issue), false);
    assert RunEach(BatchFiles(issue.batchPath), step) == Outcome([], Some(Unreadable(BatchFiles(issue.batchPath)[0])));
  }

  method FixLccnIn(issue: Issue, bad: string, correct: string, dryRun: bool) returns (out: Outcome)
    ensures out == LccnFixRun(issue, bad, correct, dryRun)
  {
    out := FixLccnFiles(issue.dir, issue.files, issue.docs, correct, dryRun);
    if out.error.Some? {
      return out;
    }
    var move := if dryRun then [] else [Rename(issue.dir, Relocated(issue.dir, bad, correct))];
    var copied, deleted, reelOps := MoveReelFiles(issue.reelPath, issue.newReelPath, issue.present, issue.reelListing, issue.lccnListing, dryRun);
    var copiedKey := if copied then Some(issue.newReelPath) else None;
    var deletedKey := if deleted then Some(issue.reelPath) else None;
    var batchRun := LccnBatchFiles(BatchFiles(issue.batchPath), issue.docs, issue.issueTail, bad, correct, copiedKey, deletedKey, dryRun);
    out := After(out.ops, After(move + reelOps, batchRun));
  }

  // ---------------------------------------------------------------------------
  // What a run does

  /**
   * One listed name: nothing happens to a name without `.xml`, to an ALTO
   * page file or in a dry run; otherwise the step fails exactly when the
   * file cannot be read or has no `mods:identifier`, and when it succeeds it
   * writes back the fixed manifest and patches it, and nothing else.
   */
  lemma LccnFileOpsExactly(dir: string, f: string, docs: map<string, Document>, correct: string, dryRun: bool)
    ensures !IsXmlName(f) || dryRun || IsAltoName(f) ==> LccnFileOps(dir, f, docs, correct, dryRun) == Ok([])
    ensures LccnFileOps(dir, f, docs, correct, dryRun).Err?
            <==> && IsXmlName(f) && !dryRun && !IsAltoName(f)
                 && (PathJoin(dir, f) !in docs || FixMetsLccn(docs[PathJoin(dir, f)], correct).Err?)
    ensures LccnFileOps(dir, f, docs, correct, dryRun).Ok? ==>
              forall op :: op in LccnFileOps(dir, f, docs, correct, dryRun).value ==>
                && op.path == PathJoin(dir, f) && op.path in docs
                && (op.PatchStructMapIn? || (op.WriteXml? && Ok(op.doc) == FixMetsLccn(docs[op.path], correct)))
  {
  }

  /** A METS file only ever gets written back and patched by the file loop. */
  predicate MetsOp(op: FsOp)
  {
    op.WriteXml? || op.PatchStructMapIn?
  }

  /** An operation on a reel directory. */
  predicate ReelOp(op: FsOp)
  {
    op.CopyReelFiles? || op.RemoveTree?
  }

  /** The file loop only writes back and patches METS files. */
  lemma LccnFileRunOnlyWrites(dir: string, files: seq<string>, docs: map<string, Document>, correct: string, dryRun: bool)
    ensures forall op :: op in RunEach(files, f => LccnFileOps(dir, f, docs, correct, dryRun)).ops ==> MetsOp(op) && !ReelOp(op)
  {
    var step := f => LccnFileOps(dir, f, docs, correct, dryRun);
    RunEachExactly(files, step);
    forall op | op in RunEach(files, step).ops
      ensures MetsOp(op) && !ReelOp(op)
    {
      var i :| 0 <= i < |files| && step(files[i]).Ok? && op in step(files[i]).value;
      LccnFileOpsExactly(dir, files[i], docs, correct, dryRun);
    }
  }

  /**
   * One batch index file fails exactly when it cannot be read, an issue
   * entry has no text, or the reel update raises; otherwise it is written
   * back, once, unless in a dry run.
   */
  lemma LccnBatchOpsExactly(path: string, docs: map<string, Document>, issueTail: string, bad: string, correct: string,
                            copied: Option<string>, deleted: Option<string>, dryRun: bool)
    ensures LccnBatchOps(path, docs, issueTail, bad, correct, copied, deleted, dryRun).Err?
            <==> || path !in docs
                 || RelabelIssues(docs[path].nodes, issueTail, bad, correct).Err?
                 || UpdateReels(Document(docs[path].root, RelabelIssues(docs[path].nodes, issueTail, bad, correct).value),
                                copied, deleted, correct).Err?
    ensures LccnBatchOps(path, docs, issueTail, bad, correct, copied, deleted, dryRun).Ok? ==>
              var ops := LccnBatchOps(path, docs, issueTail, bad, correct, copied, deleted, dryRun).value;
              && |ops| == (if dryRun then 0 else 1)
              && forall op :: op in ops ==> op.WriteXml? && op.path == path
  {
  }

  /** The batch loop only writes batch index files, and writes none in a dry run. */
  lemma LccnBatchRunOnlyWrites(batches: seq<string>, docs: map<string, Document>, issueTail: string, bad: string, correct: string,
                               copied: Option<string>, deleted: Option<string>, dryRun: bool)
    ensures var run := RunEach(batches, b => LccnBatchOps(b, docs, issueTail, bad, correct, copied, deleted, dryRun));
            && (forall op :: op in run.ops ==> op.WriteXml? && op.path in batches && !ReelOp(op))
            && (dryRun ==> run.ops == [])
  {
    var step := b => LccnBatchOps(b, docs, issueTail, bad, correct, copied, deleted, dryRun);
    RunEachExactly(batches, step);
    forall op | op in RunEach(batches, step).ops
      ensures op.WriteXml? && op.path in batches && !ReelOp(op)
    {
      var i :| 0 <= i < |batches| && step(batches[i]).Ok? && op in step(batches[i]).value;
      LccnBatchOpsExactly(batches[i], docs, issueTail, bad, correct, copied, deleted, dryRun);
    }
    if dryRun {
      forall i | 0 <= i < |batches| && step(batches[i]).Ok?
        ensures step(batches[i]).value == []
      {
        LccnBatchOpsExactly(batches[i], docs, issueTail, bad, correct, copied, deleted, dryRun);
      }
      RunEachEmpty(batches, step);
    }
  }

  /**
   * A dry run writes, moves, copies and removes nothing; it still reads and
   * updates both batch index files in memory, so it can still raise.
   */
  lemma LccnDryRunDoesNothing(issue: Issue, bad: string, correct: string)
    ensures LccnFixRun(issue, bad, correct, true).ops == []
  {
    RunEachNothing(issue.files, f => LccnFileOps(issue.dir, f, issue.docs, correct, true));
    LccnBatchRunOnlyWrites(BatchFiles(issue.batchPath), issue.docs, issue.issueTail, bad, correct,
                           CopiedKey(issue), DeletedKey(issue), true);
  }

  /**
   * When a METS file of the issue cannot be fixed, the run stops there: the
   * issue is not moved and no reel file is touched, though the METS files
   * fixed before it stay written.
   */
  lemma LccnRunStopsAtMets(issue: Issue, bad: string, correct: string, dryRun: bool)
    requires RunEach(issue.files, f => LccnFileOps(issue.dir, f, issue.docs, correct, dryRun)).error.Some?
    ensures LccnFixRun(issue, bad, correct, dryRun).error.Some?
    ensures forall op :: op in LccnFixRun(issue, bad, correct, dryRun).ops ==> MetsOp(op)
  {
    LccnFileRunOnlyWrites(issue.dir, issue.files, issue.docs, correct, dryRun);
    assert LccnFixRun(issue, bad, correct, dryRun)
        == RunEach(issue.files, f => LccnFileOps(issue.dir, f, issue.docs, correct, dryRun));
  }

  /**
   * Outside a dry run the reel files are copied exactly when the new place
   * lacks the reel's manifest, the old reel directory is removed exactly when
   * it has no subdirectory left, and the LCCN directory exactly when it then
   * has none either.
   */
  lemma ReelOpsExactly(reelPath: string, newReelPath: string, present: set<string>,
                       reelListing: Option<seq<string>>, lccnListing: Option<seq<string>>)
    requires reelPath != ""
    ensures var ops := ReelOps(reelPath, newReelPath, present, reelListing, lccnListing, false);
            && (forall op :: op in ops ==> ReelOp(op))
            && (CopyReelFiles(reelPath, newReelPath) in ops <==> ReelCopied(newReelPath, present))
            && (RemoveTree(reelPath) in ops <==> ReelDeleted(reelListing))
            && (RemoveTree(LccnDir(reelPath)) in ops <==> ReelDeleted(reelListing) && lccnListing == Some([]))
  {
    assert |LccnDir(reelPath)| < |reelPath|;
  }

  /**
   * Outside a dry run, once the METS files are fixed the issue is moved to
   * its relocated path and the reel directories are copied and removed
   * exactly as `ReelOpsExactly` says: no other step touches a reel directory.
   */
  lemma ReelBookkeeping(issue: Issue, bad: string, correct: string)
    requires RunEach(issue.files, f => LccnFileOps(issue.dir, f, issue.docs, correct, false)).error.None?
    requires issue.reelPath != ""
    ensures var ops := LccnFixRun(issue, bad, correct, false).ops;
            && Rename(issue.dir, Relocated(issue.dir, bad, correct)) in ops
            && (CopyReelFiles(issue.reelPath, issue.newReelPath) in ops <==> ReelCopied(issue.newReelPath, issue.present))
            && (RemoveTree(issue.reelPath) in ops <==> ReelDeleted(issue.reelListing))
            && (RemoveTree(LccnDir(issue.reelPath)) in ops
                <==> ReelDeleted(issue.reelListing) && issue.lccnListing == Some([]))
  {
    var fileRun := RunEach(issue.files, f => LccnFileOps(issue.dir, f, issue.docs, correct, false));
    var batchRun := RunEach(BatchFiles(issue.batchPath),
                            b => LccnBatchOps(b, issue.docs, issue.issueTail, bad, correct, CopiedKey(issue), DeletedKey(issue), false));
    var reelOps := ReelOps(issue.reelPath, issue.newReelPath, issue.present, issue.reelListing, issue.lccnListing, false);
    var move := Rename(issue.dir, Relocated(issue.dir, bad, correct));
    var ops := LccnFixRun(issue, bad, correct, false).ops;
    assert ops == fileRun.ops + ([move] + reelOps + batchRun.ops);
    LccnFileRunOnlyWrites(issue.dir, issue.files, issue.docs, correct, false);
    LccnBatchRunOnlyWrites(BatchFiles(issue.batchPath), issue.docs, issue.issueTail, bad, correct,
                           CopiedKey(issue), DeletedKey(issue), false);
    ReelOpsExactly(issue.reelPath, issue.newReelPath, issue.present, issue.reelListing, issue.lccnListing);
    OnlyReelOpsTouchReels(fileRun.ops, [move] + reelOps, batchRun.ops);
  }

  /** Among `before + middle + after`, where only `middle` may touch a reel directory, reel operations are those of `middle`. */
  lemma OnlyReelOpsTouchReels(before: seq<FsOp>, middle: seq<FsOp>, after: seq<FsOp>)
    requires forall op :: op in before ==> !ReelOp(op)
    requires forall op :: op in after ==> !ReelOp(op)
    ensures forall op :: ReelOp(op) ==> (op in before + (middle + after) <==> op in middle)
  {
  }

  /** Repointing the issue entries leaves the layout and the reel entries of a sorted index as they were. */
  lemma RelabelKeepsSorted(nodes: seq<Element>, tail: string, bad: string, correct: string, c: nat)
    requires SortedIndex(nodes, c) && RelabelIssues(nodes, tail, bad, correct).Ok?
    ensures SortedIndex(RelabelIssues(nodes, tail, bad, correct).value, c)
  {
    RelabelIssuesExactly(nodes, tail, bad, correct);
    IssueTagIsNotReelTag();
    var out := RelabelIssues(nodes, tail, bad, correct).value;
    assert forall i :: c <= i < |nodes| ==> out[i] == nodes[i];
  }

  /**
   * With the reel keys taken as the last two path components, a batch index
   * whose issue entries all come before its reel entries, sorted by reel
   * number and LCCN, stays so through the whole update: the copied reel
   * `<batch>/<correct>/<reel>` is entered in its place and the deleted reel's
   * entry, if any, dropped, without error.
   */
  lemma BatchIndexStaysSorted(doc: Document, issueTail: string, bad: string, correct: string,
                              batch: string, reel: string, copy: bool, deleted: Option<string>, c: nat)
    requires SortedIndex(doc.nodes, c) && c > 0
    requires RelabelIssues(doc.nodes, issueTail, bad, correct).Ok?
    requires '/' !in correct && |reel| == 11 && AllDigits(reel) && ParseNat(DropFirst(correct, 2)).Some?
    ensures var copied := if copy then Some(ReelTail(batch + "/" + correct + "/" + reel)) else None;
            var repointed := Document(doc.root, RelabelIssues(doc.nodes, issueTail, bad, correct).value);
            var r := UpdateReels(repointed, copied, deleted, correct);
            r.Ok? && SortedIndex(r.value.nodes, c)
  {
    RelabelKeepsSorted(doc.nodes, issueTail, bad, correct, c);
    assert '/' !in reel by {
      forall i | 0 <= i < |reel|
        ensures reel[i] != '/'
      {
        assert IsDigit(reel[i]);
      }
    }
    ReelTailOfPath(batch, correct, reel);
    var repointed := Document(doc.root, RelabelIssues(doc.nodes, issueTail, bad, correct).value);
    ReelUpdatesKeepOrder(repointed, correct, reel, copy, deleted, c);
  }
}
