/**
 * The date repair (`fix_dates` of fix_dates_by_lccn.py) for one issue
 * directory whose name carries a bad date: the issue's ALTO page files and
 * METS manifest get the bad date replaced in the fields that record it, the
 * METS files and the directory itself are renamed, and the issue's entries in
 * both batch index files are re-dated. Dates are handled as the operator
 * types them (`YYYY-MM-DD`) inside documents and with their hyphens removed
 * (`YYYYMMDD`) in file names, directory names and index paths.
 */
module FixDates {
  import opened Wrappers
  import opened Errors
  import opened Strings
  import opened Xml
  import opened BatchIndex
  import opened Effects

  // ---------------------------------------------------------------------------
  // ALTO page files

  const AltoString := Qualified(AltoNs, "String")
  const AltoPrintSpace := Qualified(AltoNs, "PrintSpace")

  /**
   * The selection as written, `root.findall("PrintSpace//String")`: an
   * element tagged `String` with no namespace, somewhere below a child of the
   * root tagged `PrintSpace` with no namespace.
   */
  predicate SelectedAsWritten(e: Element)
  {
    e.tag == "String" && |e.ancestors| >= 2 && e.ancestors[1] == "PrintSpace"
  }

  /**
   * The selection the script means: an ALTO `String` anywhere below an ALTO
   * `PrintSpace` (`.//{alto}PrintSpace//{alto}String`).
   */
  predicate SelectedString(e: Element)
  {
    e.tag == AltoString && |e.ancestors| >= 2 && AltoPrintSpace in e.ancestors[1..]
  }

  /**
   * One selected `String`: a `CONTENT` holding the bad date has every
   * occurrence replaced; a missing `CONTENT` raises.
   */
  function FixString(e: Element, badDate: string, newDate: string): Result<Element, Error>
  {
    match e.Get("CONTENT")
    case None => Err(MissingAttribute(e.tag, "CONTENT"))
    case Some(text) =>
      if Contains(text, badDate) then Ok(e.Set("CONTENT", ReplaceAll(text, badDate, newDate))) else Ok(e)
  }

  /** What the loop over the selection does to one element: fix it when selected, else keep it. */
  function StringEdit(selected: Element -> bool, badDate: string, newDate: string): Element -> Result<Element, Error>
  {
    e => if selected(e) then FixString(e, badDate, newDate) else Ok(e)
  }

  /** The ALTO fix under a selection of `String` elements; the root is never selected. */
  function FixStrings(doc: Document, selected: Element -> bool, badDate: string, newDate: string): Result<Document, Error>
  {
    match EditAll(doc.nodes, StringEdit(selected, badDate, newDate))
    case Err(err) => Err(err)
    case Ok(nodes) => Ok(Document(doc.root, nodes))
  }

  /** The ALTO fix as written; this is the one the repair performs. */
  function FixAltoAsWritten(doc: Document, badDate: string, newDate: string): Result<Document, Error>
  {
    FixStrings(doc, SelectedAsWritten, badDate, newDate)
  }

  /** The ALTO fix with the selection corrected. */
  function FixAlto(doc: Document, badDate: string, newDate: string): Result<Document, Error>
  {
    FixStrings(doc, SelectedString, badDate, newDate)
  }

  method FixAltoContent(t: XmlTree, badDate: string, newDate: string) returns (failure: Option<Error>)
    modifies t
    ensures failure.None? <==> FixAltoAsWritten(old(t.Doc()), badDate, newDate).Ok?
    ensures failure.Some? ==> FixAltoAsWritten(old(t.Doc()), badDate, newDate) == Err(failure.value)
    ensures failure.None? ==> t.Doc() == FixAltoAsWritten(old(t.Doc()), badDate, newDate).value
  {
    failure := t.EditEach(StringEdit(SelectedAsWritten, badDate, newDate));
  }

  /** A namespace-qualified tag, as every tag of an ALTO document is. */
  predicate IsQualifiedTag(tag: string)
  {
    |tag| > 0 && tag[0] == '{'
  }

  /**
   * As written, the ALTO fix changes nothing in a document whose tags are
   * all namespace-qualified: the bad date stays in every page file.
   */
  lemma AsWrittenMissesNamespaced(doc: Document, badDate: string, newDate: string)
    requires forall i :: 0 <= i < |doc.nodes| ==> IsQualifiedTag(doc.nodes[i].tag)
    ensures FixAltoAsWritten(doc, badDate, newDate) == Ok(doc)
  {
    var edit := StringEdit(SelectedAsWritten, badDate, newDate);
    EditAllExactly(doc.nodes, edit);
    forall i | 0 <= i < |doc.nodes|
      ensures edit(doc.nodes[i]) == Ok(doc.nodes[i])
    {
      assert doc.nodes[i].tag != "String";
    }
    var out := EditAll(doc.nodes, edit);
    assert out.Ok?;
    assert out.value == doc.nodes;
  }

  /** A selected `String` whose `CONTENT` holds the bad date. */
  predicate HoldsBadContent(e: Element, selected: Element -> bool, badDate: string)
  {
    selected(e) && e.Get("CONTENT").Some? && Contains(e.Get("CONTENT").value, badDate)
  }

  /**
   * The ALTO fix fails exactly when a selected `String` has no `CONTENT`;
   * otherwise each selected `String` holding the bad date has it replaced in
   * `CONTENT` and keeps everything else, and every other element is left as
   * it was.
   */
  lemma FixStringsExactly(doc: Document, selected: Element -> bool, badDate: string, newDate: string)
    ensures FixStrings(doc, selected, badDate, newDate).Err?
            <==> exists i :: 0 <= i < |doc.nodes| && selected(doc.nodes[i]) && doc.nodes[i].Get("CONTENT").None?
    ensures FixStrings(doc, selected, badDate, newDate).Ok? ==>
              var out := FixStrings(doc, selected, badDate, newDate).value;
              && out.root == doc.root
              && |out.nodes| == |doc.nodes|
              && (forall i :: 0 <= i < |doc.nodes| && HoldsBadContent(doc.nodes[i], selected, badDate) ==>
                    out.nodes[i] == doc.nodes[i].Set("CONTENT", ReplaceAll(doc.nodes[i].Get("CONTENT").value, badDate, newDate)))
              && (forall i :: 0 <= i < |doc.nodes| && !HoldsBadContent(doc.nodes[i], selected, badDate) ==> out.nodes[i] == doc.nodes[i])
  {
    EditAllExactly(doc.nodes, StringEdit(selected, badDate, newDate));
  }

  /** No selected `String` of the list still holds the bad date in its `CONTENT`. */
  predicate BadContentGone(nodes: seq<Element>, selected: Element -> bool, badDate: string)
  {
    forall i :: 0 <= i < |nodes| ==> !HoldsBadContent(nodes[i], selected, badDate)
  }

  /**
   * Running the ALTO fix again on its own output gives that output back,
   * once no replaced `CONTENT` holds the bad date any more.
   */
  lemma FixStringsSettles(doc: Document, selected: Element -> bool, badDate: string, newDate: string)
    requires FixStrings(doc, selected, badDate, newDate).Ok?
    requires BadContentGone(FixStrings(doc, selected, badDate, newDate).value.nodes, selected, badDate)
    ensures FixStrings(FixStrings(doc, selected, badDate, newDate).value, selected, badDate, newDate)
            == FixStrings(doc, selected, badDate, newDate)
  {
    var edit := StringEdit(selected, badDate, newDate);
    var out := FixStrings(doc, selected, badDate, newDate).value;
    EditAllExactly(doc.nodes, edit);
    forall i | 0 <= i < |out.nodes|
      ensures edit(out.nodes[i]) == Ok(out.nodes[i])
    {
      assert !HoldsBadContent(out.nodes[i], selected, badDate);
      if selected(doc.nodes[i]) {
        assert doc.nodes[i].Get("CONTENT").Some?;
      }
    }
    EditAllUnchanged(out.nodes, edit);
  }

  /**
   * A concrete page: a `String` holding the bad date under
   * `Layout/Page/PrintSpace/TextBlock/TextLine` of a namespaced ALTO
   * document. The fix as written leaves it alone; the corrected fix
   * replaces the date.
   */
  lemma AltoPageExample()
    ensures var page := AltoPage("1901-01-05");
            && FixAltoAsWritten(page, "1901-01-05", "1901-01-15") == Ok(page)
            && FixAlto(page, "1901-01-05", "1901-01-15").Ok?
            && |FixAlto(page, "1901-01-05", "1901-01-15").value.nodes| == 6
            && FixAlto(page, "1901-01-05", "1901-01-15").value.nodes[5].Get("CONTENT") == Some("1901-01-15")
  {
    var page := AltoPage("1901-01-05");
    AltoPageQualified("1901-01-05");
    AsWrittenMissesNamespaced(page, "1901-01-05", "1901-01-15");
    AltoPageString("1901-01-05");
    FixStringsExactly(page, SelectedString, "1901-01-05", "1901-01-15");
    ReplaceWhole("1901-01-05", "1901-01-15");
  }

  /**
   * In a run that is not dry, the example page listed as `0001.xml` is read
   * and written back exactly as it was: the bad date stays in it.
   */
  lemma AltoPageWrittenBack(dir: string)
    ensures var path := PathJoin(dir, "0001.xml");
            var page := AltoPage("1901-01-05");
            DateFileOps(dir, "0001.xml", map[path := page], "1901-01-05", "1901-01-15", false) == Ok([WriteXml(path, page)])
  {
    var page := AltoPage("1901-01-05");
    AltoPageQualified("1901-01-05");
    AsWrittenMissesNamespaced(page, "1901-01-05", "1901-01-15");
    assert AllDigits("0001");
    AltoNameIsXmlName("0001.xml");
  }

  /** Every tag of the example page is namespace-qualified. */
  lemma AltoPageQualified(content: string)
    ensures forall i :: 0 <= i < |AltoPage(content).nodes| ==> IsQualifiedTag(AltoPage(content).nodes[i].tag)
  {
    var page := AltoPage(content);
    forall i | 0 <= i < |page.nodes|
      ensures IsQualifiedTag(page.nodes[i].tag)
    {
    }
  }

  /** The example page's `String` is one the corrected fix selects, and it holds its content. */
  lemma AltoPageString(content: string)
    requires |content| > 0
    ensures SelectedString(AltoPage(content).nodes[5])
    ensures AltoPage(content).nodes[5].Get("CONTENT") == Some(content)
    ensures HoldsBadContent(AltoPage(content).nodes[5], SelectedString, content)
  {
    var s := AltoPage(content).nodes[5];
    assert s.ancestors[1..][2] == AltoPrintSpace;
    assert content <= content;
  }

  /** Replacing a whole non-empty text by another gives that other text. */
  lemma ReplaceWhole(s: string, rep: string)
    requires |s| > 0
    ensures ReplaceAll(s, s, rep) == rep
  {
    assert s[|s|..] == [];
    assert rep + [] == rep;
  }

  /** The page of the example: the root and its descendants in document order. */
  function AltoPage(content: string): (doc: Document)
    ensures |doc.nodes| == 6
  {
    var alto := Qualified(AltoNs, "alto");
    var layout := Qualified(AltoNs, "Layout");
    var page := Qualified(AltoNs, "Page");
    var block := Qualified(AltoNs, "TextBlock");
    var line := Qualified(AltoNs, "TextLine");
    Document(
      Element(alto, [], map[], None),
      [ Element(layout, [alto], map[], None),
        Element(page, [alto, layout], map[], None),
        Element(AltoPrintSpace, [alto, layout, page], map[], None),
        Element(block, [alto, layout, page, AltoPrintSpace], map[], None),
        Element(line, [alto, layout, page, AltoPrintSpace, block], map[], None),
        Element(AltoString, [alto, layout, page, AltoPrintSpace, block, line], map["CONTENT" := content], None)
      ])
  }

  // ---------------------------------------------------------------------------
  // METS issue manifests

  /**
   * The METS fix: the root's `LABEL` has the bad date replaced when it holds
   * it, then the first `mods:dateIssued` has every bad date in its text
   * replaced. A missing `LABEL`, `dateIssued` or text raises.
   */
  function FixMetsDates(doc: Document, badDate: string, newDate: string): Result<Document, Error>
  {
    match doc.root.Get("LABEL")
    case None => Err(MissingAttribute(doc.root.tag, "LABEL"))
    case Some(title) =>
      var root := if Contains(title, badDate) then doc.root.Set("LABEL", ReplaceAll(title, badDate, newDate)) else doc.root;
      match FindFirst(doc.nodes, ModsDateIssued)
      case None => Err(MissingElement(ModsDateIssued))
      case Some(k) =>
        match doc.nodes[k].text
        case None => Err(MissingText(ModsDateIssued))
        case Some(text) => Ok(Document(root, doc.nodes[k := doc.nodes[k].(text := Some(ReplaceAll(text, badDate, newDate)))]))
  }

  method FixMetsDateFields(t: XmlTree, badDate: string, newDate: string) returns (failure: Option<Error>)
    modifies t
    ensures failure.None? <==> FixMetsDates(old(t.Doc()), badDate, newDate).Ok?
    ensures failure.Some? ==> FixMetsDates(old(t.Doc()), badDate, newDate) == Err(failure.value)
    ensures failure.None? ==> t.Doc() == FixMetsDates(old(t.Doc()), badDate, newDate).value
  {
    var title := t.root.Get("LABEL");
    if title.None? {
      return Some(MissingAttribute(t.root.tag, "LABEL"));
    }
    if Contains(title.value, badDate) {
      t.SetRootAttr("LABEL", ReplaceAll(title.value, badDate, newDate));
    }
    var k := FindFirst(t.nodes, ModsDateIssued);
    if k.None? {
      return Some(MissingElement(ModsDateIssued));
    }
    var text := t.nodes[k.value].text;
    if text.None? {
      return Some(MissingText(ModsDateIssued));
    }
    t.SetText(k.value, ReplaceAll(text.value, badDate, newDate));
    return None;
  }

  /**
   * The METS fix fails exactly when the root has no `LABEL`, or there is no
   * `dateIssued`, or the first one has no text. Otherwise `LABEL` changes
   * only when it holds the bad date, and then has every occurrence replaced,
   * no other root attribute changes, and the only other element that changes
   * is the first `dateIssued`, whose text has every bad date replaced.
   */
  lemma FixMetsDatesExactly(doc: Document, badDate: string, newDate: string)
    ensures FixMetsDates(doc, badDate, newDate).Err?
            <==> || doc.root.Get("LABEL").None?
                 || FindFirst(doc.nodes, ModsDateIssued).None?
                 || doc.nodes[FindFirst(doc.nodes, ModsDateIssued).value].text.None?
    ensures FixMetsDates(doc, badDate, newDate).Ok? ==>
              var out := FixMetsDates(doc, badDate, newDate).value;
              var title := doc.root.Get("LABEL").value;
              var k := FindFirst(doc.nodes, ModsDateIssued).value;
              && out.root.tag == doc.root.tag && out.root.text == doc.root.text
              && out.root.Get("LABEL") == Some(if Contains(title, badDate) then ReplaceAll(title, badDate, newDate) else title)
              && (forall n :: n != "LABEL" ==> out.root.Get(n) == doc.root.Get(n))
              && |out.nodes| == |doc.nodes|
              && out.nodes[k] == doc.nodes[k].(text := Some(ReplaceAll(doc.nodes[k].text.value, badDate, newDate)))
              && (forall j :: 0 <= j < |doc.nodes| && j != k ==> out.nodes[j] == doc.nodes[j])
  {
  }

  /** Neither `LABEL` nor the first `dateIssued`'s text holds the bad date. */
  predicate MetsDatesGone(doc: Document, badDate: string)
  {
    && (doc.root.Get("LABEL").Some? ==> !Contains(doc.root.Get("LABEL").value, badDate))
    && (FindFirst(doc.nodes, ModsDateIssued).Some? && doc.nodes[FindFirst(doc.nodes, ModsDateIssued).value].text.Some? ==>
          !Contains(doc.nodes[FindFirst(doc.nodes, ModsDateIssued).value].text.value, badDate))
  }

  /**
   * Running the METS fix again on its own output gives that output back,
   * once neither replaced field holds the bad date any more.
   */
  lemma FixMetsDatesSettles(doc: Document, badDate: string, newDate: string)
    requires FixMetsDates(doc, badDate, newDate).Ok?
    requires MetsDatesGone(FixMetsDates(doc, badDate, newDate).value, badDate)
    ensures FixMetsDates(FixMetsDates(doc, badDate, newDate).value, badDate, newDate) == FixMetsDates(doc, badDate, newDate)
  {
    var out := FixMetsDates(doc, badDate, newDate).value;
    var k := FindFirst(doc.nodes, ModsDateIssued).value;
    FixMetsDatesExactly(doc, badDate, newDate);
    FindFirstSameTags(doc.nodes, out.nodes, ModsDateIssued);
    var text := out.nodes[k].text.value;
    assert "" <= text;
    ReplaceAllAbsent(text, badDate, newDate);
    assert out.nodes[k := out.nodes[k].(text := Some(text))] == out.nodes;
  }

  // ---------------------------------------------------------------------------
  // One issue directory

  /** The hyphen-free form of a date, as file and directory names carry it. */
  function Fd(date: string): (r: string)
    ensures '-' !in r
  {
    StripHyphensClears(date);
    StripHyphens(date)
  }

  /** A file or directory path with every hyphen-free bad date replaced by the new one. */
  function Redated(p: string, badDate: string, newDate: string): string
  {
    ReplaceAll(p, Fd(badDate), Fd(newDate))
  }

  /** The hyphen-free form of `YYYY-MM-DD` is `YYYYMMDD`: the three parts, in order. */
  lemma FdOfDate(y: string, m: string, d: string)
    requires '-' !in y && '-' !in m && '-' !in d
    ensures Fd(y + "-" + m + "-" + d) == y + m + d
  {
    assert y + "-" + m + "-" + d == y + "-" + (m + "-" + d);
    StripConcat(y, m + "-" + d);
    StripConcat(m, d);
    StripNoHyphen(d);
    assert y + (m + d) == y + m + d;
  }

  /**
   * An issue directory name, the hyphen-free bad date and a two-digit
   * edition, is renamed to the hyphen-free new date with the same edition.
   */
  lemma RedatedName(badDate: string, newDate: string, ed: string)
    requires |Fd(badDate)| == 8 && |ed| == 2
    ensures Redated(Fd(badDate) + ed, badDate, newDate) == Fd(newDate) + ed
  {
    var name := Fd(badDate) + ed;
    assert Fd(badDate) <= name;
    assert name[|Fd(badDate)|..] == ed;
    ContainsNotLonger(ed, Fd(badDate));
    ReplaceAllAbsent(ed, Fd(badDate), Fd(newDate));
  }

  /**
   * What the loop over the directory listing does for one name: nothing for
   * a name without `.xml` or in a dry run; otherwise the file is read and
   * fixed and written back (a METS file is then also patched and, when its
   * name holds the bad date, renamed).
   */
  function DateFileOps(dir: string, f: string, docs: map<string, Document>, badDate: string, newDate: string, dryRun: bool)
    : Result<seq<FsOp>, Error>
  {
    if !IsXmlName(f) || dryRun then Ok([])
    else
      var path := PathJoin(dir, f);
      match Parse(docs, path)
      case Err(err) => Err(err)
      case Ok(doc) =>
        if IsAltoName(f) then
          match FixAltoAsWritten(doc, badDate, newDate)
          case Err(err) => Err(err)
          case Ok(fixed) => Ok([WriteXml(path, fixed)])
        else
          match FixMetsDates(doc, badDate, newDate)
          case Err(err) => Err(err)
          case Ok(fixed) =>
            var rename := if Contains(f, Fd(badDate)) then [Rename(path, PathJoin(dir, Redated(f, badDate, newDate)))] else [];
            Ok([WriteXml(path, fixed), PatchStructMapIn(path)] + rename)
  }

  method FixDateFile(dir: string, f: string, docs: map<string, Document>, badDate: string, newDate: string, dryRun: bool)
    returns (r: Result<seq<FsOp>, Error>)
    ensures r == DateFileOps(dir, f, docs, badDate, newDate, dryRun)
  {
    if !IsXmlName(f) || dryRun {
      return Ok([]);
    }
    var path := PathJoin(dir, f);
    if path !in docs {
      return Err(Unreadable(path));
    }
    var t := new XmlTree(docs[path]);
    if IsAltoName(f) {
      var failure := FixAltoContent(t, badDate, newDate);
      if failure.Some? {
        return Err(failure.value);
      }
      return Ok([WriteXml(path, t.Doc())]);
    }
    var failure := FixMetsDateFields(t, badDate, newDate);
    if failure.Some? {
      return Err(failure.value);
    }
    var rename := if Contains(f, Fd(badDate)) then [Rename(path, PathJoin(dir, Redated(f, badDate, newDate)))] else [];
    return Ok([WriteXml(path, t.Doc()), PatchStructMapIn(path)] + rename);
  }

  /** One batch index file: read, re-dated, written back. */
  function RedateBatchOps(path: string, docs: map<string, Document>, tail: string, badDate: string, newDate: string)
    : Result<seq<FsOp>, Error>
  {
    match Parse(docs, path)
    case Err(err) => Err(err)
    case Ok(doc) =>
      match RedateIndex(doc, tail, badDate, newDate)
      case Err(err) => Err(err)
      case Ok(fixed) => Ok([WriteXml(path, fixed)])
  }

  method RedateBatchFile(path: string, docs: map<string, Document>, tail: string, badDate: string, newDate: string)
    returns (r: Result<seq<FsOp>, Error>)
    ensures r == RedateBatchOps(path, docs, tail, badDate, newDate)
  {
    if path !in docs {
      return Err(Unreadable(path));
    }
    var t := new XmlTree(docs[path]);
    var failure := RedateIndexEntries(t, tail, badDate, newDate);
    if failure.Some? {
      return Err(failure.value);
    }
    return Ok([WriteXml(path, t.Doc())]);
  }

  /**
   * `fix_dates` on one issue directory `dir` holding the files `files`, in
   * the batch directory `batchPath`, with `tail` the part of `dir` from the
   * LCCN on: every file in turn, then the directory's rename, then both
   * batch index files. A dry run stops after the (empty) file loop.
   */
  function DateFixRun(dir: string, files: seq<string>, docs: map<string, Document>, batchPath: string, tail: string,
                      badDate: string, newDate: string, dryRun: bool): Outcome
  {
    var fileRun := RunEach(files, f => DateFileOps(dir, f, docs, badDate, newDate, dryRun));
    if fileRun.error.Some? || dryRun then fileRun
    else After(fileRun.ops,
               After([Rename(dir, Redated(dir, badDate, newDate))],
                     RunEach(BatchFiles(batchPath), b => RedateBatchOps(b, docs, tail, badDate, newDate))))
  }

  /** The loop over the directory listing. */
  method FixDateFiles(dir: string, files: seq<string>, docs: map<string, Document>, badDate: string, newDate: string, dryRun: bool)
    returns (out: Outcome)
    ensures out == RunEach(files, f => DateFileOps(dir, f, docs, badDate, newDate, dryRun))
  {
    var ops: seq<FsOp> := [];
    var i := 0;
    while i < |files|
      invariant 0 <= i <= |files|
      invariant After(ops, RunEach(files[i..], f => DateFileOps(dir, f, docs, badDate, newDate, dryRun)))
                == RunEach(files, f => DateFileOps(dir, f, docs, badDate, newDate, dryRun))
    {
      var r := FixDateFile(dir, files[i], docs, badDate, newDate, dryRun);
      assert files[i..][0] == files[i] && files[i..][1..] == files[i + 1..];
      if r.Err? {
        return Outcome(ops, Some(r.error));
      }
      AfterAfter(ops, r.value, RunEach(files[i + 1..], f => DateFileOps(dir, f, docs, badDate, newDate, dryRun)));
      ops := ops + r.value;
      i := i + 1;
    }
    assert files[i..] == [];
    return Outcome(ops, None);
  }

  /** The loop over both batch index files. */
  method RedateBatchFiles(batches: seq<string>, docs: map<string, Document>, tail: string, badDate: string, newDate: string)
    returns (out: Outcome)
    ensures out == RunEach(batches, b => RedateBatchOps(b, docs, tail, badDate, newDate))
  {
    var ops: seq<FsOp> := [];
    var j := 0;
    while j < |batches|
      invariant 0 <= j <= |batches|
      invariant After(ops, RunEach(batches[j..], b => RedateBatchOps(b, docs, tail, badDate, newDate)))
                == RunEach(batches, b => RedateBatchOps(b, docs, tail, badDate, newDate))
    {
      var r := RedateBatchFile(batches[j], docs, tail, badDate, newDate);
      assert batches[j..][0] == batches[j] && batches[j..][1..] == batches[j + 1..];
      if r.Err? {
        return Outcome(ops, Some(r.error));
      }
      AfterAfter(ops, r.value, RunEach(batches[j + 1..], b => RedateBatchOps(b, docs, tail, badDate, newDate)));
      ops := ops + r.value;
      j := j + 1;
    }
    assert batches[j..] == [];
    return Outcome(ops, None);
  }

  method FixDatesIn(dir: string, files: seq<string>, docs: map<string, Document>, batchPath: string, tail: string,
                    badDate: string, newDate: string, dryRun: bool) returns (out: Outcome)
    ensures out == DateFixRun(dir, files, docs, batchPath, tail, badDate, newDate, dryRun)
  {
    out := FixDateFiles(dir, files, docs, badDate, newDate, dryRun);
    if out.error.Some? || dryRun {
      return out;
    }
    var batchRun := RedateBatchFiles(BatchFiles(batchPath), docs, tail, badDate, newDate);
    out := After(out.ops, After([Rename(dir, Redated(dir, badDate, newDate))], batchRun));
  }

  // ---------------------------------------------------------------------------
  // What a run does

  /** A dry run changes nothing and raises nothing: no document is even read. */
  lemma DryRunDoesNothing(dir: string, files: seq<string>, docs: map<string, Document>, batchPath: string, tail: string,
                          badDate: string, newDate: string)
    ensures DateFixRun(dir, files, docs, batchPath, tail, badDate, newDate, true) == Outcome([], None)
  {
    RunEachNothing(files, f => DateFileOps(dir, f, docs, badDate, newDate, true));
  }

  /**
   * The operations one listed name may give rise to: its fixed document
   * written back; for a METS file, the `<structMap>` patch and, when the name
   * holds the hyphen-free bad date, the rename to the name with every
   * occurrence replaced.
   */
  predicate DateFileOp(dir: string, f: string, docs: map<string, Document>, badDate: string, newDate: string, op: FsOp)
  {
    var path := PathJoin(dir, f);
    || (&& op.WriteXml? && op.path == path && path in docs
        && Ok(op.doc) == if IsAltoName(f) then FixAltoAsWritten(docs[path], badDate, newDate) else FixMetsDates(docs[path], badDate, newDate))
    || (!IsAltoName(f) && op == PatchStructMapIn(path))
    || (!IsAltoName(f) && Contains(f, Fd(badDate)) && op == Rename(path, PathJoin(dir, Redated(f, badDate, newDate))))
  }

  /**
   * One name: nothing happens to a name without `.xml` or in a dry run;
   * otherwise the step fails exactly when the file cannot be read or its fix
   * raises, and when it succeeds every operation is one of the name's own,
   * the write always comes first, and a METS file whose name holds the bad
   * date is always renamed.
   */
  lemma DateFileOpsExactly(dir: string, f: string, docs: map<string, Document>, badDate: string, newDate: string, dryRun: bool)
    ensures !IsXmlName(f) || dryRun ==> DateFileOps(dir, f, docs, badDate, newDate, dryRun) == Ok([])
    ensures IsXmlName(f) && !dryRun ==>
              var path := PathJoin(dir, f);
              (DateFileOps(dir, f, docs, badDate, newDate, dryRun).Err?
               <==> path !in docs
                    || (IsAltoName(f) && FixAltoAsWritten(docs[path], badDate, newDate).Err?)
                    || (!IsAltoName(f) && FixMetsDates(docs[path], badDate, newDate).Err?))
    ensures DateFileOps(dir, f, docs, badDate, newDate, dryRun).Ok? ==>
              var ops := DateFileOps(dir, f, docs, badDate, newDate, dryRun).value;
              && (forall op :: op in ops ==> DateFileOp(dir, f, docs, badDate, newDate, op))
              && (|ops| > 0 ==> ops[0].WriteXml?)
              && (IsXmlName(f) && !dryRun && !IsAltoName(f) && Contains(f, Fd(badDate)) ==>
                    Rename(PathJoin(dir, f), PathJoin(dir, Redated(f, badDate, newDate))) in ops)
  {
  }

  /**
   * Every operation of a run is one of a listed XML name's own, the rename
   * of the issue directory (the hyphen-free bad date replaced anywhere in
   * its full path), or the write of a batch index file with the issue's
   * entries re-dated.
   */
  predicate DateRunOp(dir: string, files: seq<string>, docs: map<string, Document>, batchPath: string, tail: string,
                      badDate: string, newDate: string, op: FsOp)
  {
    || (exists f :: f in files && IsXmlName(f) && DateFileOp(dir, f, docs, badDate, newDate, op))
    || op == Rename(dir, Redated(dir, badDate, newDate))
    || (&& op.WriteXml? && op.path in BatchFiles(batchPath) && op.path in docs
        && Ok(op.doc) == RedateIndex(docs[op.path], tail, badDate, newDate))
  }

  lemma BatchOpsExactly(path: string, docs: map<string, Document>, tail: string, badDate: string, newDate: string)
    ensures RedateBatchOps(path, docs, tail, badDate, newDate).Err?
            <==> path !in docs || RedateIndex(docs[path], tail, badDate, newDate).Err?
    ensures RedateBatchOps(path, docs, tail, badDate, newDate).Ok? ==>
              var ops := RedateBatchOps(path, docs, tail, badDate, newDate).value;
              && |ops| == 1 && ops[0].WriteXml? && ops[0].path == path && path in docs
              && Ok(ops[0].doc) == RedateIndex(docs[path], tail, badDate, newDate)
  {
  }

  /** Nothing but the expected operations happens, whatever the outcome. */
  lemma DateRunOpsExpected(dir: string, files: seq<string>, docs: map<string, Document>, batchPath: string, tail: string,
                           badDate: string, newDate: string, dryRun: bool)
    ensures forall op :: op in DateFixRun(dir, files, docs, batchPath, tail, badDate, newDate, dryRun).ops ==>
              DateRunOp(dir, files, docs, batchPath, tail, badDate, newDate, op)
  {
    var fileStep := f => DateFileOps(dir, f, docs, badDate, newDate, dryRun);
    var batchStep := b => RedateBatchOps(b, docs, tail, badDate, newDate);
    RunEachExactly(files, fileStep);
    RunEachExactly(BatchFiles(batchPath), batchStep);
    var run := DateFixRun(dir, files, docs, batchPath, tail, badDate, newDate, dryRun);
    forall op | op in run.ops
      ensures DateRunOp(dir, files, docs, batchPath, tail, badDate, newDate, op)
    {
      if op in RunEach(files, fileStep).ops {
        var i :| 0 <= i < |files| && fileStep(files[i]).Ok? && op in fileStep(files[i]).value;
        DateFileOpsExactly(dir, files[i], docs, badDate, newDate, dryRun);
        assert files[i] in files;
      } else if op != Rename(dir, Redated(dir, badDate, newDate)) {
        var batches := BatchFiles(batchPath);
        var i :| 0 <= i < |batches| && batchStep(batches[i]).Ok? && op in batchStep(batches[i]).value;
        BatchOpsExactly(batches[i], docs, tail, badDate, newDate);
      }
    }
  }

  /**
   * A run that raises nothing, outside a dry run, has renamed every METS file
   * whose name holds the hyphen-free bad date and the issue directory, and
   * has rewritten both batch index files.
   */
  lemma DateRunComplete(dir: string, files: seq<string>, docs: map<string, Document>, batchPath: string, tail: string,
                        badDate: string, newDate: string)
    requires DateFixRun(dir, files, docs, batchPath, tail, badDate, newDate, false).error.None?
    ensures var ops := DateFixRun(dir, files, docs, batchPath, tail, badDate, newDate, false).ops;
            && (forall f :: f in files && IsXmlName(f) && !IsAltoName(f) && Contains(f, Fd(badDate)) ==>
                  Rename(PathJoin(dir, f), PathJoin(dir, Redated(f, badDate, newDate))) in ops)
            && Rename(dir, Redated(dir, badDate, newDate)) in ops
            && forall b :: b in BatchFiles(batchPath) ==> exists op :: op in ops && op.WriteXml? && op.path == b
  {
    var fileStep := f => DateFileOps(dir, f, docs, badDate, newDate, false);
    var batchStep := b => RedateBatchOps(b, docs, tail, badDate, newDate);
    RunEachExactly(files, fileStep);
    var fileRun := RunEach(files, fileStep);
    var batches := BatchFiles(batchPath);
    var batchRun := RunEach(batches, batchStep);
    RunEachExactly(batches, batchStep);
    var ops := DateFixRun(dir, files, docs, batchPath, tail, badDate, newDate, false).ops;
    assert ops == fileRun.ops + [Rename(dir, Redated(dir, badDate, newDate))] + batchRun.ops;
    forall f | f in files && IsXmlName(f) && !IsAltoName(f) && Contains(f, Fd(badDate))
      ensures Rename(PathJoin(dir, f), PathJoin(dir, Redated(f, badDate, newDate))) in ops
    {
      var i :| 0 <= i < |files| && files[i] == f;
      DateFileOpsExactly(dir, f, docs, badDate, newDate, false);
      assert Rename(PathJoin(dir, f), PathJoin(dir, Redated(f, badDate, newDate))) in fileRun.ops;
    }
    forall b | b in batches
      ensures exists op :: op in ops && op.WriteXml? && op.path == b
    {
      var i :| 0 <= i < |batches| && batches[i] == b;
      BatchOpsExactly(b, docs, tail, badDate, newDate);
      var op := batchStep(b).value[0];
      assert op in batchRun.ops;
      assert op in ops;
    }
  }

  /** `os.path.join(dir, f)` for a name without `/`: a fixed prefix, then the name. */
  lemma PathJoinAppends(dir: string, f: string, g: string)
    requires '/' !in f && '/' !in g
    ensures |PathJoin(dir, f)| >= |dir| + |f|
    ensures PathJoin(dir, f) == PathJoin(dir, g) ==> f == g
  {
    if PathJoin(dir, f) == PathJoin(dir, g) {
      var pre := if |dir| == 0 || dir[|dir| - 1] == '/' then dir else dir + "/";
      assert PathJoin(dir, f) == pre + f && PathJoin(dir, g) == pre + g;
      assert f == (pre + f)[|pre|..];
    }
  }

  /** ALTO page files are never renamed, whether the run succeeds or not. */
  lemma AltoFilesNeverRenamed(dir: string, files: seq<string>, docs: map<string, Document>, batchPath: string, tail: string,
                              badDate: string, newDate: string, dryRun: bool, f: string, target: string)
    requires forall g :: g in files ==> '/' !in g
    requires f in files && IsAltoName(f)
    ensures Rename(PathJoin(dir, f), target) !in DateFixRun(dir, files, docs, batchPath, tail, badDate, newDate, dryRun).ops
  {
    DateRunOpsExpected(dir, files, docs, batchPath, tail, badDate, newDate, dryRun);
    var op := Rename(PathJoin(dir, f), target);
    if op in DateFixRun(dir, files, docs, batchPath, tail, badDate, newDate, dryRun).ops {
      assert DateRunOp(dir, files, docs, batchPath, tail, badDate, newDate, op);
      if exists g :: g in files && IsXmlName(g) && DateFileOp(dir, g, docs, badDate, newDate, op) {
        var g :| g in files && IsXmlName(g) && DateFileOp(dir, g, docs, badDate, newDate, op);
        PathJoinAppends(dir, g, f);
        assert false;
      } else {
        PathJoinAppends(dir, f, f);
        assert false;
      }
    }
  }
}
