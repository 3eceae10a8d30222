/**
 * What one issue's repair does to the archive, as data. The scripts change
 * the filesystem step by step and never roll back: when a step raises, the
 * steps already taken stay done. A run is therefore modelled as the list of
 * filesystem operations performed, in order, together with the error that
 * stopped it, if any. Parsing a document is looking it up among the
 * documents that can be read; the ones missing stand for files that do not
 * exist or do not parse.
 */
module Effects {
  import opened Wrappers
  import opened Errors
  import opened Strings
  import opened Xml

  /** One filesystem operation of the repair scripts. */
  datatype FsOp =
    | WriteXml(path: string, doc: Document)      // tree.write(path): the whole document replaced
    | PatchStructMapIn(path: string)             // the line-by-line `<structMap>` rewrite of a written file
    | Rename(from: string, to: string)           // os.rename / os.renames
    | CopyReelFiles(from: string, to: string)    // shutil.copy2 of every `*.*` file of a reel directory
    | RemoveTree(path: string)                   // shutil.rmtree

  /** The operations a run performed and the error that ended it, if any. */
  datatype Outcome = Outcome(ops: seq<FsOp>, error: Option<Error>)

  /** A run that first performed `ops` and then went on as `rest`. */
  function After(ops: seq<FsOp>, rest: Outcome): (r: Outcome)
    ensures r.error == rest.error && |r.ops| == |ops| + |rest.ops|
    ensures r.ops[..|ops|] == ops && r.ops[|ops|..] == rest.ops
  {
    Outcome(ops + rest.ops, rest.error)
  }

  lemma AfterAfter(ops: seq<FsOp>, more: seq<FsOp>, rest: Outcome)
    ensures After(ops, After(more, rest)) == After(ops + more, rest)
  {
    assert ops + (more + rest.ops) == (ops + more) + rest.ops;
  }

  /**
   * A `for` loop whose body performs some operations or raises: the
   * operations of every item in turn, up to the first item that raises.
   */
  function RunEach<T>(items: seq<T>, step: T -> Result<seq<FsOp>, Error>): Outcome
    decreases |items|
  {
    if |items| == 0 then Outcome([], None)
    else match step(items[0])
      case Err(e) => Outcome([], Some(e))
      case Ok(ops) => After(ops, RunEach(items[1..], step))
  }

  /**
   * The loop stops exactly at the first item that raises, and otherwise
   * performs every item's operations; every operation it performs is one of
   * an item that did not raise.
   */
  lemma {:induction false} RunEachExactly<T>(items: seq<T>, step: T -> Result<seq<FsOp>, Error>)
    ensures RunEach(items, step).error.None? <==> forall i :: 0 <= i < |items| ==> step(items[i]).Ok?
    ensures RunEach(items, step).error.Some? ==>
              exists i :: 0 <= i < |items| && step(items[i]) == Err(RunEach(items, step).error.value)
                          && forall j :: 0 <= j < i ==> step(items[j]).Ok?
    ensures forall op :: op in RunEach(items, step).ops ==>
              exists i :: 0 <= i < |items| && step(items[i]).Ok? && op in step(items[i]).value
    ensures RunEach(items, step).error.None? ==>
              forall i, op :: 0 <= i < |items| && step(items[i]).Ok? && op in step(items[i]).value ==>
                op in RunEach(items, step).ops
    decreases |items|
  {
    if |items| > 0 {
      RunEachExactly(items[1..], step);
      assert forall i :: 1 <= i < |items| ==> items[1..][i - 1] == items[i];
      if step(items[0]).Ok? {
        var rest := RunEach(items[1..], step);
        forall op | op in RunEach(items, step).ops
          ensures exists i :: 0 <= i < |items| && step(items[i]).Ok? && op in step(items[i]).value
        {
          if op !in step(items[0]).value {
            assert op in rest.ops;
            var i :| 0 <= i < |items[1..]| && step(items[1..][i]).Ok? && op in step(items[1..][i]).value;
            assert items[1..][i] == items[i + 1];
          }
        }
        if rest.error.Some? {
          var i :| 0 <= i < |items[1..]| && step(items[1..][i]) == Err(rest.error.value)
                   && forall j :: 0 <= j < i ==> step(items[1..][j]).Ok?;
          assert step(items[i + 1]) == Err(rest.error.value);
          forall j | 0 <= j < i + 1
            ensures step(items[j]).Ok?
          {
            if j > 0 {
              assert items[1..][j - 1] == items[j];
            }
          }
        }
      }
    }
  }

  /** A loop whose every step does nothing and never raises does nothing. */
  lemma {:induction false} RunEachNothing<T>(items: seq<T>, step: T -> Result<seq<FsOp>, Error>)
    requires forall i :: 0 <= i < |items| ==> step(items[i]) == Ok([])
    ensures RunEach(items, step) == Outcome([], None)
    decreases |items|
  {
    if |items| > 0 {
      assert forall i :: 1 <= i < |items| ==> items[1..][i - 1] == items[i];
      RunEachNothing(items[1..], step);
    }
  }

  /** A loop none of whose steps performs anything performs nothing, whether or not it raises. */
  lemma {:induction false} RunEachEmpty<T>(items: seq<T>, step: T -> Result<seq<FsOp>, Error>)
    requires forall i :: 0 <= i < |items| && step(items[i]).Ok? ==> step(items[i]).value == []
    ensures RunEach(items, step).ops == []
    decreases |items|
  {
    if |items| > 0 {
      assert forall i :: 1 <= i < |items| ==> items[1..][i - 1] == items[i];
      RunEachEmpty(items[1..], step);
    }
  }

  /** `ET.parse(path)`: the document at a path, or the error that reading it raises. */
  function Parse(docs: map<string, Document>, path: string): (r: Result<Document, Error>)
    ensures r.Err? <==> path !in docs
    ensures r.Ok? ==> r.value == docs[path]
  {
    if path in docs then Ok(docs[path]) else Err(Unreadable(path))
  }

  /** Only names containing `.xml` are treated as documents: `f.find('.xml') >= 0`. */
  predicate IsXmlName(f: string)
  {
    Contains(f, ".xml")
  }

  /**
   * An ALTO page file: the name begins with four digits and `.xml`
   * (`re.match("[0-9]{4}\.xml", f)`, anchored at the start only).
   */
  predicate IsAltoName(f: string)
  {
    |f| >= 8 && AllDigits(f[..4]) && f[4..8] == ".xml"
  }

  /** Every ALTO page file name is also an XML name. */
  lemma AltoNameIsXmlName(f: string)
    requires IsAltoName(f)
    ensures IsXmlName(f)
  {
    var t := f[4..];
    assert ".xml" <= t;
    ContainsSuffix(f, 4, ".xml");
  }

  /** The two batch index files of a batch directory, in the order they are rewritten. */
  function BatchFiles(batchPath: string): (r: seq<string>)
    ensures |r| == 2
  {
    [PathJoin(batchPath, "batch.xml"), PathJoin(batchPath, "batch_1.xml")]
  }
}
