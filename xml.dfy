/**
 * The XML documents the repair scripts load with ElementTree: an issue's METS
 * manifest, its ALTO page files and the batch index. A document is its root
 * element and the root's descendants in document order (what `root.iter()`
 * yields after the root); every element records the tags of its ancestors, so
 * the path expressions the scripts use (`.//tag`, `PrintSpace//String`) are
 * predicates on one element. Tags are as ElementTree reports them: a
 * namespace-qualified name is `{uri}local`.
 */
module Xml {
  import opened Wrappers
  import opened Strings
  import opened Errors

  const MetsNs := "http://www.loc.gov/METS/"
  const ModsNs := "http://www.loc.gov/mods/v3"
  const NdnpNs := "http://www.loc.gov/ndnp"
  const AltoNs := "http://schema.ccs-gmbh.com/ALTO"
  const NpNs := "urn:library-of-congress:ndnp:mets:newspaper"

  /** ElementTree's spelling of a namespace-qualified tag. */
  function Qualified(ns: string, local: string): string
  {
    "{" + ns + "}" + local
  }

  const ModsIdentifier := Qualified(ModsNs, "identifier")
  const ModsDateIssued := Qualified(ModsNs, "dateIssued")
  const NdnpIssue := Qualified(NdnpNs, "issue")
  const NdnpReel := Qualified(NdnpNs, "reel")

  /**
   * One element: its tag, the tags of its ancestors from the root down to its
   * parent, its attributes and its text (`None` where ElementTree has `None`).
   */
  datatype Element = Element(tag: string, ancestors: seq<string>, attrs: map<string, string>, text: Option<string>)
  {
    /** `element.get(name)`. */
    function Get(name: string): Option<string>
    {
      if name in attrs then Some(attrs[name]) else None
    }

    /** `element.set(name, value)`. */
    function Set(name: string, value: string): (e: Element)
      ensures e.tag == tag && e.ancestors == ancestors && e.text == text
      ensures e.Get(name) == Some(value)
      ensures forall n :: n != name ==> e.Get(n) == Get(n)
    {
      this.(attrs := attrs[name := value])
    }
  }

  /** A parsed document: the root and its descendants in document order. */
  datatype Document = Document(root: Element, nodes: seq<Element>)

  /** The position of the first descendant with a given tag: `root.find(".//" + tag)`. */
  function FindFirst(nodes: seq<Element>, tag: string): (r: Option<nat>)
    ensures r.Some? ==> r.value < |nodes| && nodes[r.value].tag == tag
    ensures r.Some? ==> forall k :: 0 <= k < r.value ==> nodes[k].tag != tag
    ensures r.None? ==> forall k :: 0 <= k < |nodes| ==> nodes[k].tag != tag
    decreases |nodes|
  {
    if |nodes| == 0 then None
    else if nodes[0].tag == tag then Some(0)
    else match FindFirst(nodes[1..], tag)
      case None => None
      case Some(k) => Some(k + 1)
  }

  /** Lists whose elements carry the same tags, place by place, have the same first match. */
  lemma FindFirstSameTags(a: seq<Element>, b: seq<Element>, tag: string)
    requires |a| == |b| && forall i :: 0 <= i < |a| ==> a[i].tag == b[i].tag
    ensures FindFirst(a, tag) == FindFirst(b, tag)
  {
    if FindFirst(a, tag).Some? {
      assert b[FindFirst(a, tag).value].tag == tag;
    }
    if FindFirst(b, tag).Some? {
      assert a[FindFirst(b, tag).value].tag == tag;
    }
  }

  /** `root.findall(".//" + tag)`: the descendants with the tag, in document order. */
  function WithTag(nodes: seq<Element>, tag: string): (r: seq<Element>)
    ensures |r| <= |nodes|
    decreases |nodes|
  {
    if |nodes| == 0 then []
    else WithTag(nodes[..|nodes| - 1], tag) + (if nodes[|nodes| - 1].tag == tag then [nodes[|nodes| - 1]] else [])
  }

  /** Where each element `findall` returns sits among the descendants. */
  function TagPositions(nodes: seq<Element>, tag: string): (r: seq<nat>)
    ensures |r| == |WithTag(nodes, tag)|
    ensures forall i :: 0 <= i < |r| ==> r[i] < |nodes| && nodes[r[i]] == WithTag(nodes, tag)[i]
    decreases |nodes|
  {
    if |nodes| == 0 then []
    else
      var n := |nodes| - 1;
      assert nodes[..n][..n] == nodes[..n];
      TagPositions(nodes[..n], tag) + (if nodes[n].tag == tag then [n] else [])
  }

  /** `findall` keeps document order and misses no element with the tag. */
  lemma TagPositionsExactly(nodes: seq<Element>, tag: string)
    ensures forall i, j :: 0 <= i < j < |TagPositions(nodes, tag)| ==> TagPositions(nodes, tag)[i] < TagPositions(nodes, tag)[j]
    ensures forall q :: 0 <= q < |nodes| && nodes[q].tag == tag ==> q in TagPositions(nodes, tag)
    ensures forall i :: 0 <= i < |WithTag(nodes, tag)| ==> WithTag(nodes, tag)[i].tag == tag
  {
    TagPositionsIncrease(nodes, tag);
    TagPositionsComplete(nodes, tag);
    WithTagHasTag(nodes, tag);
  }

  lemma {:induction false} TagPositionsIncrease(nodes: seq<Element>, tag: string)
    ensures forall i, j :: 0 <= i < j < |TagPositions(nodes, tag)| ==> TagPositions(nodes, tag)[i] < TagPositions(nodes, tag)[j]
    decreases |nodes|
  {
    if |nodes| > 0 {
      var n := |nodes| - 1;
      TagPositionsIncrease(nodes[..n], tag);
      var ps := TagPositions(nodes[..n], tag);
      assert forall i :: 0 <= i < |ps| ==> ps[i] < n;
      assert TagPositions(nodes, tag) == ps + (if nodes[n].tag == tag then [n] else []);
    }
  }

  lemma {:induction false} TagPositionsComplete(nodes: seq<Element>, tag: string)
    ensures forall q :: 0 <= q < |nodes| && nodes[q].tag == tag ==> q in TagPositions(nodes, tag)
    decreases |nodes|
  {
    if |nodes| > 0 {
      var n := |nodes| - 1;
      TagPositionsComplete(nodes[..n], tag);
      var ps := TagPositions(nodes[..n], tag);
      assert TagPositions(nodes, tag) == ps + (if nodes[n].tag == tag then [n] else []);
      forall q | 0 <= q < |nodes| && nodes[q].tag == tag
        ensures q in TagPositions(nodes, tag)
      {
        if q < n {
          assert nodes[..n][q] == nodes[q];
          assert q in ps;
        } else {
          assert TagPositions(nodes, tag)[|ps|] == q;
        }
      }
    }
  }

  lemma {:induction false} WithTagHasTag(nodes: seq<Element>, tag: string)
    ensures forall i :: 0 <= i < |WithTag(nodes, tag)| ==> WithTag(nodes, tag)[i].tag == tag
    decreases |nodes|
  {
    if |nodes| > 0 {
      WithTagHasTag(nodes[..|nodes| - 1], tag);
    }
  }

  /**
   * Applying a fallible edit to every element in turn, as a `for` loop over
   * the elements does: the edited elements, or the first failure.
   */
  function EditAll(nodes: seq<Element>, edit: Element -> Result<Element, Error>): Result<seq<Element>, Error>
    decreases |nodes|
  {
    if |nodes| == 0 then Ok([])
    else match EditAll(nodes[..|nodes| - 1], edit)
      case Err(e) => Err(e)
      case Ok(done) =>
        match edit(nodes[|nodes| - 1])
        case Err(e) => Err(e)
        case Ok(x) => Ok(done + [x])
  }

  /**
   * The loop edits each element on its own: it fails exactly when some
   * element's edit fails, with the first such failure, and otherwise every
   * element is replaced by its own edit and nothing moves.
   */
  lemma {:induction false} EditAllExactly(nodes: seq<Element>, edit: Element -> Result<Element, Error>)
    ensures EditAll(nodes, edit).Err? <==> exists i :: 0 <= i < |nodes| && edit(nodes[i]).Err?
    ensures EditAll(nodes, edit).Err? ==>
              exists i :: 0 <= i < |nodes| && edit(nodes[i]) == Err(EditAll(nodes, edit).error)
                          && forall j :: 0 <= j < i ==> edit(nodes[j]).Ok?
    ensures EditAll(nodes, edit).Ok? ==>
              |EditAll(nodes, edit).value| == |nodes|
              && forall i :: 0 <= i < |nodes| ==> edit(nodes[i]) == Ok(EditAll(nodes, edit).value[i])
    decreases |nodes|
  {
    if |nodes| > 0 {
      var n := |nodes| - 1;
      var front := nodes[..n];
      EditAllExactly(front, edit);
      assert forall i :: 0 <= i < n ==> front[i] == nodes[i];
    }
  }

  /** An edit that keeps every element as it is makes the loop give the list back. */
  lemma {:induction false} EditAllUnchanged(nodes: seq<Element>, edit: Element -> Result<Element, Error>)
    requires forall i :: 0 <= i < |nodes| ==> edit(nodes[i]) == Ok(nodes[i])
    ensures EditAll(nodes, edit) == Ok(nodes)
    decreases |nodes|
  {
    if |nodes| > 0 {
      var n := |nodes| - 1;
      var front := nodes[..n];
      forall i | 0 <= i < n
        ensures edit(front[i]) == Ok(front[i])
      {
        assert front[i] == nodes[i];
      }
      EditAllUnchanged(front, edit);
      assert edit(nodes[n]) == Ok(nodes[n]);
      assert front + [nodes[n]] == nodes;
    }
  }

  /** An edit that changes nothing the second time makes the whole loop idempotent. */
  lemma {:induction false} EditAllIdempotent(nodes: seq<Element>, edit: Element -> Result<Element, Error>)
    requires forall e :: edit(e).Ok? ==> edit(edit(e).value) == edit(e)
    ensures EditAll(nodes, edit).Ok? ==> EditAll(EditAll(nodes, edit).value, edit) == EditAll(nodes, edit)
    decreases |nodes|
  {
    if |nodes| > 0 && EditAll(nodes, edit).Ok? {
      var n := |nodes| - 1;
      var done := EditAll(nodes[..n], edit).value;
      var x := edit(nodes[n]).value;
      EditAllIdempotent(nodes[..n], edit);
      EditAllExactly(nodes[..n], edit);
      var out := done + [x];
      assert out[..n] == done;
      assert out[n] == x;
    }
  }

  /**
   * A document held in memory by ElementTree, which the scripts change in
   * place (`set`, `.text =`, `insert`, `append`, `remove`) before writing it back.
   */
  class XmlTree {
    var root: Element
    var nodes: seq<Element>

    constructor (doc: Document)
      ensures Doc() == doc
    {
      root := doc.root;
      nodes := doc.nodes;
    }

    /** The document the tree currently holds. */
    function Doc(): Document
      reads this
    {
      Document(root, nodes)
    }

    /** `root.set(name, value)`. */
    method SetRootAttr(name: string, value: string)
      modifies this
      ensures root == old(root).Set(name, value) && nodes == old(nodes)
    {
      root := root.Set(name, value);
    }

    /** `e.set(name, value)` on the i-th descendant. */
    method SetAttr(i: nat, name: string, value: string)
      requires i < |nodes|
      modifies this
      ensures nodes == old(nodes)[i := old(nodes)[i].Set(name, value)] && root == old(root)
    {
      nodes := nodes[i := nodes[i].Set(name, value)];
    }

    /** `e.text = value` on the i-th descendant. */
    method SetText(i: nat, value: string)
      requires i < |nodes|
      modifies this
      ensures nodes == old(nodes)[i := old(nodes)[i].(text := Some(value))] && root == old(root)
    {
      nodes := nodes[i := nodes[i].(text := Some(value))];
    }

    /**
     * `root.insert(i, e)` when every descendant is a child of the root:
     * Python's list insertion, which appends when `i` is past the end.
     */
    method Insert(i: nat, e: Element)
      modifies this
      ensures nodes == InsertAt(old(nodes), i, e) && root == old(root)
    {
      if i < |nodes| {
        nodes := nodes[..i] + [e] + nodes[i..];
      } else {
        nodes := nodes + [e];
      }
    }

    /** `root.append(e)`. */
    method Append(e: Element)
      modifies this
      ensures nodes == old(nodes) + [e] && root == old(root)
    {
      nodes := nodes + [e];
    }

    /**
     * A `for` loop over the descendants that edits each in place; an
     * exception leaves the tree half edited, which the scripts never write.
     */
    method EditEach(edit: Element -> Result<Element, Error>) returns (failure: Option<Error>)
      modifies this
      ensures root == old(root)
      ensures failure.None? <==> EditAll(old(nodes), edit).Ok?
      ensures failure.None? ==> nodes == EditAll(old(nodes), edit).value
      ensures failure.Some? ==> EditAll(old(nodes), edit) == Err(failure.value)
    {
      ghost var before := nodes;
      var i := 0;
      while i < |nodes|
        invariant 0 <= i <= |nodes| == |before|
        invariant root == old(root)
        invariant nodes[i..] == before[i..]
        invariant EditAll(before[..i], edit) == Ok(nodes[..i])
      {
        assert before[..i + 1][..i] == before[..i];
        assert nodes[i] == before[i];
        match edit(nodes[i])
        case Err(e) =>
          EditAllFailsFrom(before, i + 1, edit);
          return Some(e);
        case Ok(x) =>
          assert nodes[..i] + [x] == nodes[i := x][..i + 1];
          nodes := nodes[i := x];
          i := i + 1;
      }
      assert before[..i] == before;
      assert nodes[..i] == nodes;
      return None;
    }

    /** `root.remove(e)` for the child at position i. */
    method RemoveAt(i: nat)
      requires i < |nodes|
      modifies this
      ensures nodes == old(nodes)[..i] + old(nodes)[i + 1..] && root == old(root)
    {
      nodes := nodes[..i] + nodes[i + 1..];
    }
  }

  /** A failure on a prefix of the elements is the failure of the whole loop. */
  lemma {:induction false} EditAllFailsFrom(nodes: seq<Element>, i: nat, edit: Element -> Result<Element, Error>)
    requires i <= |nodes| && EditAll(nodes[..i], edit).Err?
    ensures EditAll(nodes, edit) == EditAll(nodes[..i], edit)
    decreases |nodes|
  {
    if i < |nodes| {
      var n := |nodes| - 1;
      assert nodes[..n][..i] == nodes[..i];
      EditAllFailsFrom(nodes[..n], i, edit);
    } else {
      assert nodes[..i] == nodes;
    }
  }

  /** Python's `list.insert(i, x)` for a non-negative index. */
  function InsertAt<T>(s: seq<T>, i: nat, x: T): (r: seq<T>)
    ensures |r| == |s| + 1
    ensures i < |s| ==> r[i] == x && r[..i] == s[..i] && r[i + 1..] == s[i..]
    ensures i >= |s| ==> r == s + [x]
  {
    if i < |s| then s[..i] + [x] + s[i..] else s + [x]
  }

  // ---------------------------------------------------------------------------
  // The textual structMap patch applied to a METS file after it is written

  const StructMapTag := "<" + "structMap>"
  /** The patched tag after its `<`. */
  const StructMapWithNpRest := "structMap xmlns:np=" + "\"" + NpNs + "\">"
  const StructMapWithNp := "<" + StructMapWithNpRest

  /** `line.replace('<structMap>', '<structMap xmlns:np="...">')` on the written text. */
  function PatchStructMap(text: string): string
  {
    ReplaceAll(text, StructMapTag, StructMapWithNp)
  }

  /** The patch is a safe replacement: its output begins with `<structMap` and holds no further `<`. */
  lemma StructMapPatchSafe()
    ensures Safe(StructMapTag, StructMapWithNp)
  {
    assert StructMapTag[1..] == "structMap>";
    assert StructMapWithNp[1..] == StructMapWithNpRest;
    assert '<' !in NpNs;
    NoCharInJoin('<', "structMap xmlns:np=" + "\"", NpNs);
    NoCharInJoin('<', "structMap xmlns:np=" + "\"" + NpNs, "\">");
    assert StructMapWithNp[10] == ' ';
  }

  lemma NoCharInJoin(c: char, a: string, b: string)
    requires c !in a && c !in b
    ensures c !in a + b
  {
  }

  /** The tag the patch looks for is not empty and never spans two lines. */
  lemma StructMapTagOnOneLine()
    ensures |StructMapTag| > 0 && '\n' !in StructMapTag
  {
    assert StructMapTag == "<structMap>";
  }

  /** After the patch no bare `<structMap>` tag is left. */
  lemma PatchStructMapClears(text: string)
    ensures !Contains(PatchStructMap(text), StructMapTag)
  {
    StructMapPatchSafe();
    ReplaceAllClears(text, StructMapTag, StructMapWithNp);
  }

  /** A second pass of the patch changes nothing. */
  lemma PatchStructMapIdempotent(text: string)
    ensures PatchStructMap(PatchStructMap(text)) == PatchStructMap(text)
  {
    StructMapPatchSafe();
    ReplaceAllIdempotent(text, StructMapTag, StructMapWithNp);
  }

  /** A text without a bare `<structMap>` passes through the patch unchanged. */
  lemma PatchStructMapAbsent(text: string)
    requires !Contains(text, StructMapTag)
    ensures PatchStructMap(text) == text
  {
    ReplaceAllAbsent(text, StructMapTag, StructMapWithNp);
  }

  /**
   * A needle without a newline never straddles a line break, so replacing in
   * a text whose first part ends a line is replacing in each part.
   */
  lemma {:induction false} ReplaceAllAtLineBreak(a: string, b: string, pat: string, rep: string)
    requires |pat| > 0 && '\n' !in pat
    requires |a| == 0 || a[|a| - 1] == '\n'
    ensures ReplaceAll(a + b, pat, rep) == ReplaceAll(a, pat, rep) + ReplaceAll(b, pat, rep)
    decreases |a|
  {
    if |a| > 0 {
      if pat <= a + b {
        LongNeedleCoversBreak(a, b, pat);
        if |pat| >= |a| {
          assert false;
        }
        MatchBeforeBreak(a, b, pat, rep);
        var a' := a[|pat|..];
        assert a'[|a'| - 1] == a[|a| - 1];
        ReplaceAllAtLineBreak(a', b, pat, rep);
      } else {
        NoMatchBeforeBreak(a, b, pat, rep);
        ReplaceAllAtLineBreak(a[1..], b, pat, rep);
      }
    } else {
      assert a + b == b;
    }
  }

  /** An occurrence at the front of the first part is replaced the same way with or without the second. */
  lemma MatchBeforeBreak(a: string, b: string, pat: string, rep: string)
    requires 0 < |pat| < |a| && pat <= a + b
    ensures pat <= a
    ensures ReplaceAll(a + b, pat, rep) == rep + ReplaceAll(a[|pat|..] + b, pat, rep)
    ensures ReplaceAll(a, pat, rep) == rep + ReplaceAll(a[|pat|..], pat, rep)
  {
    assert (a + b)[|pat|..] == a[|pat|..] + b;
  }

  /** A first character that starts no occurrence is kept the same way with or without the second part. */
  lemma NoMatchBeforeBreak(a: string, b: string, pat: string, rep: string)
    requires 0 < |pat| && 0 < |a| && !(pat <= a + b)
    ensures ReplaceAll(a + b, pat, rep) == [a[0]] + ReplaceAll(a[1..] + b, pat, rep)
    ensures ReplaceAll(a, pat, rep) == [a[0]] + ReplaceAll(a[1..], pat, rep)
    ensures |a[1..]| == 0 || a[1..][|a[1..]| - 1] == a[|a| - 1]
  {
    assert !(pat <= a);
    assert (a + b)[1..] == a[1..] + b;
  }

  /** A needle that starts a text and is longer than its first part covers that part's last character. */
  lemma LongNeedleCoversBreak(a: string, b: string, pat: string)
    ensures 0 < |a| <= |pat| && pat <= a + b ==> pat[|a| - 1] == a[|a| - 1]
  {
  }

  /** The lines of a file put back together. */
  function Concat(lines: seq<string>): string
    decreases |lines|
  {
    if |lines| == 0 then "" else Concat(lines[..|lines| - 1]) + lines[|lines| - 1]
  }

  /** The lines `fileinput` yields: every line but the last ends with a newline. */
  predicate AreLines(lines: seq<string>)
  {
    forall i :: 0 <= i < |lines| - 1 ==> |lines[i]| > 0 && lines[i][|lines[i]| - 1] == '\n'
  }

  /**
   * The `fileinput` loop that rewrites a METS file line by line: the output is
   * the patch applied to the whole text.
   */
  method PatchFileLines(lines: seq<string>) returns (out: string)
    requires AreLines(lines)
    ensures out == PatchStructMap(Concat(lines))
  {
    out := "";
    var i := 0;
    while i < |lines|
      invariant 0 <= i <= |lines|
      invariant out == PatchStructMap(Concat(lines[..i]))
      invariant i < |lines| ==> var c := Concat(lines[..i]); |c| == 0 || c[|c| - 1] == '\n'
    {
      var before := Concat(lines[..i]);
      assert lines[..i + 1][..i] == lines[..i];
      StructMapTagOnOneLine();
      ReplaceAllAtLineBreak(before, lines[i], StructMapTag, StructMapWithNp);
      out := out + PatchStructMap(lines[i]);
      i := i + 1;
    }
    assert lines[..i] == lines;
  }
}
