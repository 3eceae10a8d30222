/**
 * The batch index (`batch.xml` and `batch_1.xml`): under its root, a flat
 * list of `issue` entries followed by `reel` entries. Both repair scripts
 * repoint the entries of the issue they have just fixed; the LCCN fix also
 * adds an entry for a reel it copied, at the place that keeps the reel
 * entries ordered by reel number and then LCCN, and drops the entry of a
 * reel it deleted.
 */
module BatchIndex {
  import opened Wrappers
  import opened Errors
  import opened Strings
  import opened Xml

  // ---------------------------------------------------------------------------
  // Issue entries

  /**
   * One step of the LCCN fix's issue loop: an `issue` entry whose path text
   * contains the issue's path tail gets the correct `lccn` attribute and has
   * every bad LCCN in its text replaced. Other elements are not visited.
   */
  function RelabelIssue(e: Element, tail: string, bad: string, correct: string): Result<Element, Error>
  {
    if e.tag != NdnpIssue then Ok(e)
    else match e.text
      case None => Err(MissingText(e.tag))
      case Some(text) =>
        if Contains(text, tail) then Ok(e.Set("lccn", correct).(text := Some(ReplaceAll(text, bad, correct))))
        else Ok(e)
  }

  /** The LCCN fix's issue loop over the whole index. */
  function RelabelIssues(nodes: seq<Element>, tail: string, bad: string, correct: string): Result<seq<Element>, Error>
  {
    EditAll(nodes, e => RelabelIssue(e, tail, bad, correct))
  }

  method RelabelIssueEntries(t: XmlTree, tail: string, bad: string, correct: string) returns (failure: Option<Error>)
    modifies t
    ensures t.root == old(t.root)
    ensures failure.None? <==> RelabelIssues(old(t.nodes), tail, bad, correct).Ok?
    ensures failure.Some? ==> RelabelIssues(old(t.nodes), tail, bad, correct) == Err(failure.value)
    ensures failure.None? ==> t.nodes == RelabelIssues(old(t.nodes), tail, bad, correct).value
  {
    failure := t.EditEach(e => RelabelIssue(e, tail, bad, correct));
  }

  /**
   * What the loop does to each entry: it fails exactly when an `issue` entry
   * has no text; the entries of the fixed issue get `lccn = correct` and
   * their text with every bad LCCN replaced, keeping every other attribute;
   * every other issue entry and every reel entry is left as it was.
   */
  lemma RelabelIssuesExactly(nodes: seq<Element>, tail: string, bad: string, correct: string)
    ensures RelabelIssues(nodes, tail, bad, correct).Err?
            <==> exists i :: 0 <= i < |nodes| && nodes[i].tag == NdnpIssue && nodes[i].text.None?
    ensures RelabelIssues(nodes, tail, bad, correct).Ok? ==>
              var out := RelabelIssues(nodes, tail, bad, correct).value;
              && |out| == |nodes|
              && (forall i :: 0 <= i < |nodes| ==> out[i].tag == nodes[i].tag && out[i].ancestors == nodes[i].ancestors)
              && (forall i :: 0 <= i < |nodes| && nodes[i].tag == NdnpIssue && Contains(nodes[i].text.value, tail) ==>
                    && out[i].Get("lccn") == Some(correct)
                    && out[i].text == Some(ReplaceAll(nodes[i].text.value, bad, correct))
                    && forall n :: n != "lccn" ==> out[i].Get(n) == nodes[i].Get(n))
              && (forall i :: 0 <= i < |nodes| && (nodes[i].tag != NdnpIssue || !Contains(nodes[i].text.value, tail)) ==>
                    out[i] == nodes[i])
  {
    EditAllExactly(nodes, e => RelabelIssue(e, tail, bad, correct));
  }

  /**
   * With a safe LCCN replacement and a path tail that holds the bad LCCN,
   * a relabelled entry no longer matches, so running the loop again
   * changes nothing.
   */
  lemma RelabelIssuesIdempotent(nodes: seq<Element>, tail: string, bad: string, correct: string)
    requires Safe(bad, correct) && Contains(tail, bad)
    ensures RelabelIssues(nodes, tail, bad, correct).Ok? ==>
              RelabelIssues(RelabelIssues(nodes, tail, bad, correct).value, tail, bad, correct)
              == RelabelIssues(nodes, tail, bad, correct)
  {
    var edit := e => RelabelIssue(e, tail, bad, correct);
    forall e | edit(e).Ok?
      ensures edit(edit(e).value) == edit(e)
    {
      if e.tag == NdnpIssue && Contains(e.text.value, tail) {
        var text' := ReplaceAll(e.text.value, bad, correct);
        ReplaceAllClears(e.text.value, bad, correct);
        if Contains(text', tail) {
          ContainsTrans(text', tail, bad);
        }
      }
    }
    EditAllIdempotent(nodes, edit);
  }

  /**
   * One step of the date fix's loop over `root.iter()`: an element whose
   * text contains the issue's path tail gets the bad date replaced in its
   * `issueDate` attribute and the hyphen-free bad date replaced in its text.
   */
  function RedateEntry(e: Element, tail: string, badDate: string, newDate: string): Result<Element, Error>
  {
    match e.text
    case None => Err(MissingText(e.tag))
    case Some(text) =>
      if !Contains(text, tail) then Ok(e)
      else match e.Get("issueDate")
        case None => Err(MissingAttribute(e.tag, "issueDate"))
        case Some(d) =>
          Ok(e.Set("issueDate", ReplaceAll(d, badDate, newDate))
              .(text := Some(ReplaceAll(text, StripHyphens(badDate), StripHyphens(newDate)))))
  }

  /** The date fix's loop: the root first, then every descendant. */
  function RedateIndex(doc: Document, tail: string, badDate: string, newDate: string): Result<Document, Error>
  {
    match RedateEntry(doc.root, tail, badDate, newDate)
    case Err(e) => Err(e)
    case Ok(root) =>
      match EditAll(doc.nodes, e => RedateEntry(e, tail, badDate, newDate))
      case Err(e) => Err(e)
      case Ok(nodes) => Ok(Document(root, nodes))
  }

  method RedateIndexEntries(t: XmlTree, tail: string, badDate: string, newDate: string) returns (failure: Option<Error>)
    modifies t
    ensures failure.None? <==> RedateIndex(old(t.Doc()), tail, badDate, newDate).Ok?
    ensures failure.Some? ==> RedateIndex(old(t.Doc()), tail, badDate, newDate) == Err(failure.value)
    ensures failure.None? ==> t.Doc() == RedateIndex(old(t.Doc()), tail, badDate, newDate).value
  {
    match RedateEntry(t.root, tail, badDate, newDate)
    case Err(e) =>
      return Some(e);
    case Ok(root) =>
      t.root := root;
      failure := t.EditEach(e => RedateEntry(e, tail, badDate, newDate));
  }

  /**
   * What the date fix does to one element: it fails when the element has no
   * text, or matches and has no `issueDate`; a matching element keeps its
   * tag, place and other attributes, and has both dates replaced; any other
   * element is left as it was.
   */
  lemma RedateEntryExactly(e: Element, tail: string, badDate: string, newDate: string)
    ensures RedateEntry(e, tail, badDate, newDate).Err?
            <==> e.text.None? || (Contains(e.text.value, tail) && e.Get("issueDate").None?)
    ensures RedateEntry(e, tail, badDate, newDate).Ok? ==>
              var out := RedateEntry(e, tail, badDate, newDate).value;
              && out.tag == e.tag && out.ancestors == e.ancestors
              && (Contains(e.text.value, tail) ==>
                    && out.Get("issueDate") == Some(ReplaceAll(e.Get("issueDate").value, badDate, newDate))
                    && out.text == Some(ReplaceAll(e.text.value, StripHyphens(badDate), StripHyphens(newDate)))
                    && forall n :: n != "issueDate" ==> out.Get(n) == e.Get(n))
              && (!Contains(e.text.value, tail) ==> out == e)
  {
  }

  /**
   * Over the whole index: the update fails exactly when the root or some
   * descendant fails on its own, and otherwise every element is replaced by
   * its own update, in place.
   */
  lemma RedateIndexExactly(doc: Document, tail: string, badDate: string, newDate: string)
    ensures RedateIndex(doc, tail, badDate, newDate).Err?
            <==> RedateEntry(doc.root, tail, badDate, newDate).Err?
                 || exists i :: 0 <= i < |doc.nodes| && RedateEntry(doc.nodes[i], tail, badDate, newDate).Err?
    ensures RedateIndex(doc, tail, badDate, newDate).Ok? ==>
              var out := RedateIndex(doc, tail, badDate, newDate).value;
              && Ok(out.root) == RedateEntry(doc.root, tail, badDate, newDate)
              && |out.nodes| == |doc.nodes|
              && forall i :: 0 <= i < |doc.nodes| ==> Ok(out.nodes[i]) == RedateEntry(doc.nodes[i], tail, badDate, newDate)
  {
    EditAllExactly(doc.nodes, e => RedateEntry(e, tail, badDate, newDate));
  }

  /**
   * An entry the date fix has nothing more to do for: when it matches the
   * tail and carries an `issueDate`, neither the date nor the text holds
   * the bad date any more.
   */
  predicate EntryRedone(e: Element, tail: string, badDate: string)
  {
    e.text.Some? && Contains(e.text.value, tail) && e.Get("issueDate").Some? ==>
      !Contains(e.Get("issueDate").value, badDate) && !Contains(e.text.value, StripHyphens(badDate))
  }

  /** Re-dating an entry again gives the same entry, once the replaced fields are clear of the bad date. */
  lemma RedateEntrySettles(e: Element, tail: string, badDate: string, newDate: string)
    requires RedateEntry(e, tail, badDate, newDate).Ok?
    requires EntryRedone(RedateEntry(e, tail, badDate, newDate).value, tail, badDate)
    ensures RedateEntry(RedateEntry(e, tail, badDate, newDate).value, tail, badDate, newDate) == RedateEntry(e, tail, badDate, newDate)
  {
    var o := RedateEntry(e, tail, badDate, newDate).value;
    if Contains(o.text.value, tail) {
      var d := o.Get("issueDate").value;
      var text := o.text.value;
      assert !Contains(d, badDate) && !Contains(text, StripHyphens(badDate));
      ReplaceAllAbsent(d, badDate, newDate);
      ReplaceAllAbsent(text, StripHyphens(badDate), StripHyphens(newDate));
      assert o.attrs["issueDate" := d] == o.attrs;
    }
  }

  /** Every element of the index is one the date fix has nothing more to do for. */
  predicate IndexRedone(doc: Document, tail: string, badDate: string)
  {
    EntryRedone(doc.root, tail, badDate) && forall i :: 0 <= i < |doc.nodes| ==> EntryRedone(doc.nodes[i], tail, badDate)
  }

  /**
   * Running the index date fix again on its own output gives that output
   * back, once no re-dated entry holds the bad date any more.
   */
  lemma RedateIndexSettles(doc: Document, tail: string, badDate: string, newDate: string)
    requires RedateIndex(doc, tail, badDate, newDate).Ok?
    requires IndexRedone(RedateIndex(doc, tail, badDate, newDate).value, tail, badDate)
    ensures RedateIndex(RedateIndex(doc, tail, badDate, newDate).value, tail, badDate, newDate) == RedateIndex(doc, tail, badDate, newDate)
  {
    var out := RedateIndex(doc, tail, badDate, newDate).value;
    RedateIndexExactly(doc, tail, badDate, newDate);
    RedateEntrySettles(doc.root, tail, badDate, newDate);
    forall i | 0 <= i < |out.nodes|
      ensures RedateEntry(out.nodes[i], tail, badDate, newDate) == Ok(out.nodes[i])
    {
      RedateEntrySettles(doc.nodes[i], tail, badDate, newDate);
    }
    EditAllUnchanged(out.nodes, e => RedateEntry(e, tail, badDate, newDate));
  }

  // ---------------------------------------------------------------------------
  // Reel entries

  /**
   * A reel entry whose text reads `<lccn>/<reel number>/<reel number>.xml`:
   * its second `/`-separated part and the part of its first after two
   * characters are numbers.
   */
  predicate WellFormedReel(e: Element)
  {
    && e.text.Some?
    && |Split(e.text.value, '/')| >= 2
    && ParseNat(Split(e.text.value, '/')[1]).Some?
    && ParseNat(DropFirst(Split(e.text.value, '/')[0], 2)).Some?
  }

  /** `int(reel.text.split('/')[1])`. */
  function ReelNumber(e: Element): nat
    requires WellFormedReel(e)
  {
    ParseNat(Split(e.text.value, '/')[1]).value
  }

  /** `int(reel.text.split('/')[0][2:])`: the numeric part of the reel's LCCN. */
  function ReelLccn(e: Element): nat
    requires WellFormedReel(e)
  {
    ParseNat(DropFirst(Split(e.text.value, '/')[0], 2)).value
  }

  /** (n1, l1) sorts strictly before (n2, l2): by reel number, ties by LCCN number. */
  predicate Precedes(n1: nat, l1: nat, n2: nat, l2: nat)
  {
    n1 < n2 || (n1 == n2 && l1 < l2)
  }

  /** Reel entry `a` sorts no later than `b`. */
  predicate NoLater(a: Element, b: Element)
    requires WellFormedReel(a) && WellFormedReel(b)
  {
    !Precedes(ReelNumber(b), ReelLccn(b), ReelNumber(a), ReelLccn(a))
  }

  /**
   * The outcome of the scan for a copied reel: an entry for it is already
   * there, it goes before the child at a list position, or no reel sorts
   * after it.
   */
  datatype Slot = Duplicate | Before(index: nat) | AtEnd

  /**
   * The scan over the reel entries (in `findall` order) for a copied reel
   * with key `key` and number `copied`; `at` is the list position of the
   * first entry scanned, `len(issues)` plus the entries already passed.
   */
  function ReelSlot(reels: seq<Element>, key: string, copied: nat, correct: string, at: nat): Result<Slot, Error>
    decreases |reels|
  {
    if |reels| == 0 then Ok(AtEnd)
    else match reels[0].text
      case None => Err(MissingText(reels[0].tag))
      case Some(text) =>
        if Contains(text, key) then Ok(Duplicate)
        else
          var parts := Split(text, '/');
          if |parts| < 2 then Err(BadIndex(text))
          else match ParseNat(parts[1])
            case None => Err(BadNumber(parts[1]))
            case Some(n) =>
              if copied < n then Ok(Before(at))
              else if copied == n then
                match ParseNat(DropFirst(correct, 2))
                case None => Err(BadNumber(DropFirst(correct, 2)))
                case Some(c) =>
                  match ParseNat(DropFirst(parts[0], 2))
                  case None => Err(BadNumber(DropFirst(parts[0], 2)))
                  case Some(l) =>
                    if c < l then Ok(Before(at))
                    else ReelSlot(reels[1..], key, copied, correct, at + 1)
              else ReelSlot(reels[1..], key, copied, correct, at + 1)
  }

  /**
   * The loop over `reels` for one copied reel, with its `reel_index`
   * counter; returning stands for the script's `break`.
   */
  method FindReelSlot(reels: seq<Element>, key: string, copied: nat, correct: string, issueCount: nat)
    returns (r: Result<Slot, Error>)
    ensures r == ReelSlot(reels, key, copied, correct, issueCount)
  {
    var k := 0;
    assert reels[0..] == reels;
    while k < |reels|
      invariant 0 <= k <= |reels|
      invariant ReelSlot(reels[k..], key, copied, correct, issueCount + k) == ReelSlot(reels, key, copied, correct, issueCount)
    {
      assert reels[k..][1..] == reels[k + 1..];
      var reel := reels[k];
      if reel.text.None? {
        return Err(MissingText(reel.tag));
      }
      var text := reel.text.value;
      if Contains(text, key) {
        return Ok(Duplicate);
      }
      var parts := Split(text, '/');
      if |parts| < 2 {
        return Err(BadIndex(text));
      }
      var n := ParseNat(parts[1]);
      if n.None? {
        return Err(BadNumber(parts[1]));
      }
      if copied < n.value {
        return Ok(Before(issueCount + k));
      } else if copied == n.value {
        var c := ParseNat(DropFirst(correct, 2));
        if c.None? {
          return Err(BadNumber(DropFirst(correct, 2)));
        }
        var l := ParseNat(DropFirst(parts[0], 2));
        if l.None? {
          return Err(BadNumber(DropFirst(parts[0], 2)));
        }
        if c.value < l.value {
          return Ok(Before(issueCount + k));
        }
      }
      k := k + 1;
    }
    return Ok(AtEnd);
  }

  /**
   * The entry the script builds for a copied reel: its `reelNumber` is the
   * second `/`-separated part of the key, and its text the key followed by
   * `/<reelNumber>.xml`. The script creates it with the unqualified tag
   * `reel`; it is given the qualified `NdnpReel` here, which changes nothing
   * observable: the reel entries are collected before the insertion, each
   * index file is parsed afresh, and with the NDNP namespace registered as
   * the default the written text is the same.
   */
  function NewReelEntry(key: string, rootTag: string): Result<Element, Error>
  {
    var parts := Split(key, '/');
    if |parts| < 2 then Err(BadIndex(key))
    else Ok(Element(NdnpReel, [rootTag], map["reelNumber" := parts[1]], Some(key + "/" + parts[1] + ".xml")))
  }

  /**
   * Where the copied reel's entry goes: `None` when the scan met an entry
   * for it, otherwise the list position, `|nodes|` meaning appended (no
   * later reel, or the computed index 0, which the script treats as unset).
   */
  function CopiedReelPosition(nodes: seq<Element>, key: string, correct: string): Result<Option<nat>, Error>
  {
    var digits := Last(key, 11);
    match ParseNat(digits)
    case None => Err(BadNumber(digits))
    case Some(n) =>
      match ReelSlot(WithTag(nodes, NdnpReel), key, n, correct, |WithTag(nodes, NdnpIssue)|)
      case Err(e) => Err(e)
      case Ok(Duplicate) => Ok(None)
      case Ok(Before(i)) => Ok(Some(if i == 0 then |nodes| else i))
      case Ok(AtEnd) => Ok(Some(|nodes|))
  }

  /** The first reel entry whose text contains the key, or a reel without text met before it. */
  function FirstContaining(reels: seq<Element>, key: string): (r: Result<Option<nat>, Error>)
    ensures r.Ok? && r.value.Some? ==> r.value.value < |reels| && HoldsKey(reels[r.value.value], key)
    ensures r.Ok? ==>
              var end := if r.value.Some? then r.value.value else |reels|;
              forall j :: 0 <= j < end ==> reels[j].text.Some? && !HoldsKey(reels[j], key)
    ensures r.Err? <==>
              exists j :: 0 <= j < |reels| && reels[j].text.None?
                          && forall i :: 0 <= i < j ==> reels[i].text.Some? && !HoldsKey(reels[i], key)
    decreases |reels|
  {
    if |reels| == 0 then Ok(None)
    else match reels[0].text
      case None => Err(MissingText(reels[0].tag))
      case Some(text) =>
        if Contains(text, key) then Ok(Some(0))
        else match FirstContaining(reels[1..], key)
          case Err(e) => Err(e)
          case Ok(None) => Ok(None)
          case Ok(Some(m)) => Ok(Some(m + 1))
  }

  /**
   * The loop over `reels` for a deleted reel: once an entry is removed the
   * `deleted_reel_removed` flag keeps every later iteration from looking at
   * its entry, so the loop might as well stop.
   */
  method FindFirstContaining(reels: seq<Element>, key: string) returns (r: Result<Option<nat>, Error>)
    ensures r == FirstContaining(reels, key)
  {
    var k := 0;
    assert reels[0..] == reels;
    while k < |reels|
      invariant 0 <= k <= |reels|
      invariant FirstContaining(reels, key) == match FirstContaining(reels[k..], key)
                  case Err(e) => Err(e)
                  case Ok(None) => Ok(None)
                  case Ok(Some(m)) => Ok(Some(m + k))
    {
      assert reels[k..][1..] == reels[k + 1..];
      var text := reels[k].text;
      if text.None? {
        return Err(MissingText(reels[k].tag));
      }
      if Contains(text.value, key) {
        return Ok(Some(k));
      }
      k := k + 1;
    }
    assert reels[k..] == [];
    return Ok(None);
  }

  /** A position in the list before an insertion at `ins`, after it. */
  function Shift(p: nat, ins: Option<nat>): nat
  {
    if ins.Some? && ins.value <= p then p + 1 else p
  }

  /**
   * Inserting the copied reel's entry, if any: the new children and the
   * position inserted at.
   */
  function AddCopiedReel(doc: Document, copied: Option<string>, correct: string): (r: Result<(seq<Element>, Option<nat>), Error>)
    ensures r.Ok? && r.value.1.None? ==> r.value.0 == doc.nodes
    ensures r.Ok? && r.value.1.Some? ==> |r.value.0| == |doc.nodes| + 1
  {
    if copied.None? then Ok((doc.nodes, None))
    else match CopiedReelPosition(doc.nodes, copied.value, correct)
      case Err(e) => Err(e)
      case Ok(None) => Ok((doc.nodes, None))
      case Ok(Some(i)) =>
        match NewReelEntry(copied.value, doc.root.tag)
        case Err(e) => Err(e)
        case Ok(entry) => Ok((InsertAt(doc.nodes, i, entry), Some(i)))
  }

  method AddCopiedReelEntry(t: XmlTree, copied: Option<string>, correct: string)
    returns (failure: Option<Error>, ins: Option<nat>)
    modifies t
    ensures failure.None? <==> AddCopiedReel(old(t.Doc()), copied, correct).Ok?
    ensures failure.Some? ==> AddCopiedReel(old(t.Doc()), copied, correct) == Err(failure.value)
    ensures failure.None? ==> (t.nodes, ins) == AddCopiedReel(old(t.Doc()), copied, correct).value && t.root == old(t.root)
  {
    ins := None;
    if copied.None? {
      return None, ins;
    }
    var key := copied.value;
    var digits := Last(key, 11);
    var n := ParseNat(digits);
    if n.None? {
      return Some(BadNumber(digits)), ins;
    }
    var slot := FindReelSlot(WithTag(t.nodes, NdnpReel), key, n.value, correct, |WithTag(t.nodes, NdnpIssue)|);
    if slot.Err? {
      return Some(slot.error), ins;
    }
    if slot.value.Duplicate? {
      return None, ins;
    }
    var entry := NewReelEntry(key, t.root.tag);
    if entry.Err? {
      return Some(entry.error), ins;
    }
    if slot.value.Before? && slot.value.index != 0 {
      t.Insert(slot.value.index, entry.value);
      ins := Some(slot.value.index);
    } else {
      ins := Some(|t.nodes|);
      t.Append(entry.value);
    }
    return None, ins;
  }

  /**
   * Removing the deleted reel's entry: the first entry of the reel list
   * found in `before` whose text contains the key, wherever the insertion
   * at `ins` has moved it in `nodes`.
   */
  function DropDeletedReel(before: seq<Element>, nodes: seq<Element>, ins: Option<nat>, key: string): Result<seq<Element>, Error>
    requires |nodes| == |before| + (if ins.Some? then 1 else 0)
  {
    match FirstContaining(WithTag(before, NdnpReel), key)
    case Err(e) => Err(e)
    case Ok(None) => Ok(nodes)
    case Ok(Some(m)) =>
      var p := Shift(TagPositions(before, NdnpReel)[m], ins);
      Ok(nodes[..p] + nodes[p + 1..])
  }

  method DropDeletedReelEntry(t: XmlTree, before: seq<Element>, ins: Option<nat>, key: string) returns (failure: Option<Error>)
    requires |t.nodes| == |before| + (if ins.Some? then 1 else 0)
    modifies t
    ensures failure.None? <==> DropDeletedReel(before, old(t.nodes), ins, key).Ok?
    ensures failure.Some? ==> DropDeletedReel(before, old(t.nodes), ins, key) == Err(failure.value)
    ensures failure.None? ==> t.nodes == DropDeletedReel(before, old(t.nodes), ins, key).value && t.root == old(t.root)
  {
    var nodes := t.nodes;
    var m := FindFirstContaining(WithTag(before, NdnpReel), key);
    if m.Err? {
      return Some(m.error);
    }
    if m.value.Some? {
      var p := Shift(TagPositions(before, NdnpReel)[m.value.value], ins);
      assert DropDeletedReel(before, nodes, ins, key) == Ok(nodes[..p] + nodes[p + 1..]);
      t.RemoveAt(p);
    }
    return None;
  }

  /**
   * The reel updates of one index file: both loops scan the reel entries
   * found before either changed anything; the copied reel's entry is
   * inserted first, then the deleted reel's entry is removed.
   */
  function UpdateReels(doc: Document, copied: Option<string>, deleted: Option<string>, correct: string): Result<Document, Error>
  {
    if copied.None? && deleted.None? then Ok(doc)
    else match AddCopiedReel(doc, copied, correct)
      case Err(e) => Err(e)
      case Ok((nodes, ins)) =>
        if deleted.None? then Ok(Document(doc.root, nodes))
        else match DropDeletedReel(doc.nodes, nodes, ins, deleted.value)
          case Err(e) => Err(e)
          case Ok(nodes') => Ok(Document(doc.root, nodes'))
  }

  method UpdateReelEntries(t: XmlTree, copied: Option<string>, deleted: Option<string>, correct: string)
    returns (failure: Option<Error>)
    modifies t
    ensures failure.None? <==> UpdateReels(old(t.Doc()), copied, deleted, correct).Ok?
    ensures failure.Some? ==> UpdateReels(old(t.Doc()), copied, deleted, correct) == Err(failure.value)
    ensures failure.None? ==> t.Doc() == UpdateReels(old(t.Doc()), copied, deleted, correct).value
  {
    if copied.None? && deleted.None? {
      return None;
    }
    var before := t.nodes;
    var ins;
    failure, ins := AddCopiedReelEntry(t, copied, correct);
    if failure.Some? || deleted.None? {
      return failure;
    }
    failure := DropDeletedReelEntry(t, before, ins, deleted.value);
  }

  // ---------------------------------------------------------------------------
  // What the reel updates guarantee

  /** A reel entry whose text contains the key. */
  predicate HoldsKey(e: Element, key: string)
  {
    e.text.Some? && Contains(e.text.value, key)
  }

  /** A reel entry the scan for a copied reel (number `copied`, LCCN number `c`) walks past. */
  predicate PassedBy(e: Element, key: string, copied: nat, c: nat)
  {
    WellFormedReel(e) && !HoldsKey(e, key) && !Precedes(copied, c, ReelNumber(e), ReelLccn(e))
  }

  /** The scan walks past the first `n` reel entries. */
  predicate AllPassed(reels: seq<Element>, key: string, copied: nat, c: nat, n: nat)
    requires n <= |reels|
  {
    forall j :: 0 <= j < n ==> PassedBy(reels[j], key, copied, c)
  }

  /**
   * What an outcome of the scan means: the entry at the stop holds the key,
   * or is one the copied reel sorts strictly before, or there is no stop;
   * every entry before the stop is walked past.
   */
  predicate SlotMeaning(reels: seq<Element>, key: string, copied: nat, c: nat, at: nat, slot: Slot)
  {
    match slot
    case Duplicate =>
      exists k :: 0 <= k < |reels| && HoldsKey(reels[k], key) && AllPassed(reels, key, copied, c, k)
    case Before(i) =>
      && at <= i < at + |reels|
      && !HoldsKey(reels[i - at], key) && WellFormedReel(reels[i - at])
      && Precedes(copied, c, ReelNumber(reels[i - at]), ReelLccn(reels[i - at]))
      && AllPassed(reels, key, copied, c, i - at)
    case AtEnd =>
      AllPassed(reels, key, copied, c, |reels|)
  }

  /** Walking past the first entry and then `n` more is walking past `n + 1`. */
  lemma AllPassedCons(reels: seq<Element>, key: string, copied: nat, c: nat, n: nat)
    requires 0 < |reels| && n < |reels|
    requires PassedBy(reels[0], key, copied, c) && AllPassed(reels[1..], key, copied, c, n)
    ensures AllPassed(reels, key, copied, c, n + 1)
  {
    forall j | 0 < j < n + 1
      ensures PassedBy(reels[j], key, copied, c)
    {
      assert reels[j] == reels[1..][j - 1];
    }
  }

  /**
   * On well-formed reel entries, the scan never fails, and stops at the
   * first entry that already holds the key or that the copied reel sorts
   * strictly before; every entry before it is walked past.
   */
  lemma {:induction false} ReelSlotExactly(reels: seq<Element>, key: string, copied: nat, correct: string, at: nat)
    requires forall j :: 0 <= j < |reels| ==> WellFormedReel(reels[j])
    requires ParseNat(DropFirst(correct, 2)).Some?
    ensures ReelSlot(reels, key, copied, correct, at).Ok?
    ensures SlotMeaning(reels, key, copied, ParseNat(DropFirst(correct, 2)).value, at,
                        ReelSlot(reels, key, copied, correct, at).value)
    decreases |reels|
  {
    var c := ParseNat(DropFirst(correct, 2)).value;
    if |reels| == 0 {
      assert AllPassed(reels, key, copied, c, 0);
    } else {
      ReelSlotHead(reels, key, copied, correct, at);
      assert AllPassed(reels, key, copied, c, 0);
      if PassedBy(reels[0], key, copied, c) {
        var rest := reels[1..];
        ReelSlotExactly(rest, key, copied, correct, at + 1);
        var r := ReelSlot(rest, key, copied, correct, at + 1).value;
        match r
        case Duplicate =>
          var k :| 0 <= k < |rest| && HoldsKey(rest[k], key) && AllPassed(rest, key, copied, c, k);
          AllPassedCons(reels, key, copied, c, k);
          assert reels[k + 1] == rest[k];
        case Before(i) =>
          AllPassedCons(reels, key, copied, c, i - (at + 1));
          assert reels[i - at] == rest[i - (at + 1)];
        case AtEnd =>
          AllPassedCons(reels, key, copied, c, |rest|);
      }
    }
  }

  /** One step of the scan on a well-formed entry: stop on the key, stop before a later reel, or walk past. */
  lemma ReelSlotHead(reels: seq<Element>, key: string, copied: nat, correct: string, at: nat)
    requires |reels| > 0 && WellFormedReel(reels[0])
    requires ParseNat(DropFirst(correct, 2)).Some?
    ensures var c := ParseNat(DropFirst(correct, 2)).value;
            && (HoldsKey(reels[0], key) ==> ReelSlot(reels, key, copied, correct, at) == Ok(Duplicate))
            && (!HoldsKey(reels[0], key) && Precedes(copied, c, ReelNumber(reels[0]), ReelLccn(reels[0])) ==>
                  ReelSlot(reels, key, copied, correct, at) == Ok(Before(at)))
            && (PassedBy(reels[0], key, copied, c) ==>
                  ReelSlot(reels, key, copied, correct, at) == ReelSlot(reels[1..], key, copied, correct, at + 1))
  {
  }

  lemma IssueTagIsNotReelTag()
    ensures NdnpIssue != NdnpReel
  {
    assert |NdnpIssue| != |NdnpReel|;
  }

  /** The layout the insertion index assumes: `c` issue entries, then reel entries only. */
  predicate TagLayout(nodes: seq<Element>, c: nat)
  {
    && c <= |nodes|
    && (forall i :: 0 <= i < c ==> nodes[i].tag == NdnpIssue)
    && (forall i :: c <= i < |nodes| ==> nodes[i].tag == NdnpReel)
  }

  /** That layout with well-formed reel entries. */
  predicate IssuesThenReels(nodes: seq<Element>, c: nat)
  {
    TagLayout(nodes, c) && forall i :: c <= i < |nodes| ==> WellFormedReel(nodes[i])
  }

  /** That layout, with the reel entries ordered by reel number and then LCCN number. */
  predicate SortedIndex(nodes: seq<Element>, c: nat)
  {
    && IssuesThenReels(nodes, c)
    && forall i, j :: c <= i < j < |nodes| ==> NoLater(nodes[i], nodes[j])
  }

  /** Elements tagged `a` up to position `c`, tagged `b` from there on. */
  predicate TwoBlocks(nodes: seq<Element>, c: nat, a: string, b: string)
  {
    && c <= |nodes|
    && (forall i :: 0 <= i < c ==> nodes[i].tag == a)
    && (forall i :: c <= i < |nodes| ==> nodes[i].tag == b)
  }

  /** In two blocks `findall` finds the first block for one tag and the second for the other. */
  lemma TwoBlocksFindall(nodes: seq<Element>, c: nat, a: string, b: string, q: nat)
    requires TwoBlocks(nodes, c, a, b) && a != b && q <= |nodes|
    ensures |WithTag(nodes[..q], a)| == if q < c then q else c
    ensures WithTag(nodes[..q], b) == if q < c then [] else nodes[c..q]
  {
    FirstBlockCount(nodes, c, a, b, q);
    SecondBlockFound(nodes, c, a, b, q);
  }

  lemma {:induction false} FirstBlockCount(nodes: seq<Element>, c: nat, a: string, b: string, q: nat)
    requires TwoBlocks(nodes, c, a, b) && a != b && q <= |nodes|
    ensures |WithTag(nodes[..q], a)| == if q < c then q else c
    decreases q
  {
    if q > 0 {
      FirstBlockCount(nodes, c, a, b, q - 1);
      var pre := nodes[..q];
      assert pre[..q - 1] == nodes[..q - 1];
      assert pre[q - 1] == nodes[q - 1];
      assert WithTag(pre, a) == WithTag(nodes[..q - 1], a) + (if nodes[q - 1].tag == a then [nodes[q - 1]] else []);
    }
  }

  lemma {:induction false} SecondBlockFound(nodes: seq<Element>, c: nat, a: string, b: string, q: nat)
    requires TwoBlocks(nodes, c, a, b) && a != b && q <= |nodes|
    ensures WithTag(nodes[..q], b) == if q < c then [] else nodes[c..q]
    decreases q
  {
    if q > 0 {
      SecondBlockFound(nodes, c, a, b, q - 1);
      var pre := nodes[..q];
      assert pre[..q - 1] == nodes[..q - 1];
      assert pre[q - 1] == nodes[q - 1];
      assert WithTag(pre, b) == WithTag(nodes[..q - 1], b) + (if nodes[q - 1].tag == b then [nodes[q - 1]] else []);
      if q - 1 >= c {
        assert nodes[c..q] == nodes[c..q - 1] + [nodes[q - 1]];
      }
    }
  }

  /** The positions among a prefix one element longer: the shorter prefix's, then possibly the new one. */
  lemma TagPositionsSnoc(nodes: seq<Element>, tag: string, q: nat)
    requires 0 < q <= |nodes|
    ensures TagPositions(nodes[..q], tag) == TagPositions(nodes[..q - 1], tag) + (if nodes[q - 1].tag == tag then [q - 1] else [])
  {
    var pre := nodes[..q];
    assert pre[..q - 1] == nodes[..q - 1];
  }

  /** In two blocks the m-th element of the second block sits at position `c + m`. */
  lemma {:induction false} TwoBlocksPositions(nodes: seq<Element>, c: nat, a: string, b: string, q: nat)
    requires TwoBlocks(nodes, c, a, b) && a != b && q <= |nodes|
    ensures |TagPositions(nodes[..q], b)| == if q < c then 0 else q - c
    ensures forall m :: 0 <= m < |TagPositions(nodes[..q], b)| ==> TagPositions(nodes[..q], b)[m] == c + m
    decreases q
  {
    if q > 0 {
      TwoBlocksPositions(nodes, c, a, b, q - 1);
      TagPositionsSnoc(nodes, b, q);
      var ps := TagPositions(nodes[..q - 1], b);
      if q - 1 < c {
        assert nodes[q - 1].tag == a;
      } else {
        assert nodes[q - 1].tag == b;
        var r := ps + [q - 1];
        forall m | 0 <= m < |r|
          ensures r[m] == c + m
        {
          if m < |ps| {
            assert r[m] == ps[m];
          }
        }
      }
    }
  }

  /**
   * In the index layout `findall` finds the `c` issue entries and the reel
   * entries from position `c` on, the m-th of them at position `c + m`.
   */
  lemma LayoutFindall(nodes: seq<Element>, c: nat)
    requires TagLayout(nodes, c)
    ensures |WithTag(nodes, NdnpIssue)| == c
    ensures WithTag(nodes, NdnpReel) == nodes[c..]
    ensures forall m :: 0 <= m < |TagPositions(nodes, NdnpReel)| ==> TagPositions(nodes, NdnpReel)[m] == c + m
  {
    IssueTagIsNotReelTag();
    assert TwoBlocks(nodes, c, NdnpIssue, NdnpReel);
    TwoBlocksFindall(nodes, c, NdnpIssue, NdnpReel, |nodes|);
    TwoBlocksPositions(nodes, c, NdnpIssue, NdnpReel, |nodes|);
    assert nodes[..|nodes|] == nodes;
  }

  /** Inserting a reel entry that fits between its neighbours keeps the index sorted. */
  lemma InsertKeepsSorted(nodes: seq<Element>, c: nat, p: nat, x: Element)
    requires SortedIndex(nodes, c) && c <= p <= |nodes|
    requires x.tag == NdnpReel && WellFormedReel(x)
    requires forall j :: c <= j < p ==> NoLater(nodes[j], x)
    requires forall j :: p <= j < |nodes| ==> NoLater(x, nodes[j])
    ensures SortedIndex(nodes[..p] + [x] + nodes[p..], c)
  {
    var s := nodes[..p] + [x] + nodes[p..];
    assert forall i :: 0 <= i < p ==> s[i] == nodes[i];
    assert s[p] == x;
    assert forall i :: p < i < |s| ==> s[i] == nodes[i - 1];
  }

  /** Removing a reel entry keeps the index sorted. */
  lemma RemoveKeepsSorted(nodes: seq<Element>, c: nat, p: nat)
    requires SortedIndex(nodes, c) && c <= p < |nodes|
    ensures SortedIndex(nodes[..p] + nodes[p + 1..], c)
  {
    var s := nodes[..p] + nodes[p + 1..];
    assert forall i :: 0 <= i < p ==> s[i] == nodes[i];
    assert forall i :: p <= i < |s| ==> s[i] == nodes[i + 1];
  }

  /**
   * The entry built for a key `<lccn>/<reel>`, with an 11-digit reel
   * directory name, reads back as that reel's number and that LCCN's number.
   */
  lemma NewReelEntryReadsBack(lccn: string, reel: string, rootTag: string)
    requires '/' !in lccn && |reel| == 11 && AllDigits(reel) && ParseNat(DropFirst(lccn, 2)).Some?
    ensures var r := NewReelEntry(lccn + "/" + reel, rootTag);
            && r.Ok? && r.value.tag == NdnpReel
            && r.value.Get("reelNumber") == Some(reel)
            && r.value.text == Some(lccn + "/" + reel + "/" + reel + ".xml")
            && WellFormedReel(r.value)
            && ReelNumber(r.value) == DigitsValue(reel)
            && ReelLccn(r.value) == ParseNat(DropFirst(lccn, 2)).value
  {
    assert '/' !in reel by {
      assert forall i :: 0 <= i < |reel| ==> IsDigit(reel[i]);
    }
    SplitNoSep(reel, '/');
    SplitAfterSep(lccn, reel, '/');
    assert lccn + "/" + reel == lccn + ['/'] + reel;
    var text := lccn + "/" + reel + "/" + reel + ".xml";
    assert '/' !in reel + ".xml";
    SplitNoSep(reel + ".xml", '/');
    SplitAfterSep(reel, reel + ".xml", '/');
    SplitAfterSep(lccn, reel + ['/'] + (reel + ".xml"), '/');
    assert text == lccn + ['/'] + (reel + ['/'] + (reel + ".xml"));
  }

  /** The key's last eleven characters are the reel directory's name, read as the copied reel's number. */
  lemma ReelKeyNumber(lccn: string, reel: string)
    requires |reel| == 11 && AllDigits(reel)
    ensures Last(lccn + "/" + reel, 11) == reel
    ensures ParseNat(reel) == Some(DigitsValue(reel))
  {
    var key := lccn + "/" + reel;
    assert key[|key| - 11..] == reel;
  }

  /**
   * Inserting a reel entry after entries the scan walked past and before
   * one it sorts strictly before keeps the index sorted.
   */
  lemma InsertAfterPassed(nodes: seq<Element>, c: nat, p: nat, x: Element, key: string, n: nat, l: nat)
    requires SortedIndex(nodes, c) && c <= p <= |nodes|
    requires x.tag == NdnpReel && WellFormedReel(x) && ReelNumber(x) == n && ReelLccn(x) == l
    requires AllPassed(nodes[c..], key, n, l, p - c)
    requires p < |nodes| ==> Precedes(n, l, ReelNumber(nodes[p]), ReelLccn(nodes[p]))
    ensures SortedIndex(nodes[..p] + [x] + nodes[p..], c)
  {
    forall j | c <= j < p
      ensures NoLater(nodes[j], x)
    {
      assert nodes[c..][j - c] == nodes[j];
    }
    if p < |nodes| {
      forall j | p <= j < |nodes|
        ensures NoLater(x, nodes[j])
      {
        if j > p {
          assert NoLater(nodes[p], nodes[j]);
        }
      }
    }
    InsertKeepsSorted(nodes, c, p, x);
  }

  /**
   * With at least one issue entry ahead of the sorted reel entries, adding
   * the copied reel `<lccn>/<reel>` under the correct LCCN keeps the index
   * sorted: either the scan met an entry holding the key and nothing
   * changes, or exactly one entry is inserted, right after every reel entry
   * it does not sort before.
   */
  lemma CopiedReelKeepsOrder(doc: Document, lccn: string, reel: string, c: nat)
    requires SortedIndex(doc.nodes, c) && c > 0
    requires '/' !in lccn && |reel| == 11 && AllDigits(reel) && ParseNat(DropFirst(lccn, 2)).Some?
    ensures var r := AddCopiedReel(doc, Some(lccn + "/" + reel), lccn);
            && r.Ok?
            && SortedIndex(r.value.0, c)
            && (r.value.1.None? ==> exists k :: c <= k < |doc.nodes| && HoldsKey(doc.nodes[k], lccn + "/" + reel))
            && (r.value.1.Some? ==>
                  && c <= r.value.1.value <= |doc.nodes|
                  && NewReelEntry(lccn + "/" + reel, doc.root.tag).Ok?
                  && r.value.0 == doc.nodes[..r.value.1.value]
                                  + [NewReelEntry(lccn + "/" + reel, doc.root.tag).value]
                                  + doc.nodes[r.value.1.value..])
  {
    var slot := CopiedReelScan(doc, lccn, reel, c);
    var key := lccn + "/" + reel;
    var reels := doc.nodes[c..];
    NewReelEntryReadsBack(lccn, reel, doc.root.tag);
    AddCopiedReelBySlot(doc, key, lccn, DigitsValue(reel), slot);
    match slot
    case Duplicate =>
      var k :| 0 <= k < |reels| && HoldsKey(reels[k], key) && AllPassed(reels, key, DigitsValue(reel), ParseNat(DropFirst(lccn, 2)).value, k);
      assert reels[k] == doc.nodes[c + k];
    case Before(i) =>
      CopiedReelPlaced(doc, lccn, reel, c, i);
    case AtEnd =>
      CopiedReelPlaced(doc, lccn, reel, c, |doc.nodes|);
  }

  /** The reel entries of a sorted index, from position `c` on, are well formed. */
  lemma ReelsWellFormed(nodes: seq<Element>, c: nat)
    requires IssuesThenReels(nodes, c)
    ensures forall j :: 0 <= j < |nodes[c..]| ==> WellFormedReel(nodes[c..][j])
  {
    assert forall j :: 0 <= j < |nodes[c..]| ==> nodes[c..][j] == nodes[c + j];
  }

  /** The facts the scan yields for a copied reel `<lccn>/<reel>` on a sorted index. */
  lemma CopiedReelScan(doc: Document, lccn: string, reel: string, c: nat) returns (slot: Slot)
    requires SortedIndex(doc.nodes, c) && c > 0
    requires '/' !in lccn && |reel| == 11 && AllDigits(reel) && ParseNat(DropFirst(lccn, 2)).Some?
    ensures var key := lccn + "/" + reel;
            var n := DigitsValue(reel);
            var l := ParseNat(DropFirst(lccn, 2)).value;
            var reels := doc.nodes[c..];
            && ParseNat(Last(key, 11)) == Some(n)
            && WithTag(doc.nodes, NdnpReel) == reels
            && |WithTag(doc.nodes, NdnpIssue)| == c
            && ReelSlot(reels, key, n, lccn, c) == Ok(slot)
            && SlotMeaning(reels, key, n, l, c, slot)
            && (slot.Before? ==>
                  && c <= slot.index < |doc.nodes|
                  && Precedes(n, l, ReelNumber(doc.nodes[slot.index]), ReelLccn(doc.nodes[slot.index])))
  {
    var nodes := doc.nodes;
    var key := lccn + "/" + reel;
    LayoutFindall(nodes, c);
    ReelKeyNumber(lccn, reel);
    var n := DigitsValue(reel);
    var reels := nodes[c..];
    ReelsWellFormed(nodes, c);
    ReelSlotExactly(reels, key, n, lccn, c);
    slot := ReelSlot(reels, key, n, lccn, c).value;
    if slot.Before? {
      assert reels[slot.index - c] == nodes[slot.index];
    }
  }

  /** The copied reel's entry placed at `p`, after every reel entry it does not sort before. */
  lemma CopiedReelPlaced(doc: Document, lccn: string, reel: string, c: nat, p: nat)
    requires SortedIndex(doc.nodes, c) && c > 0 && c <= p <= |doc.nodes|
    requires '/' !in lccn && |reel| == 11 && AllDigits(reel) && ParseNat(DropFirst(lccn, 2)).Some?
    requires var key := lccn + "/" + reel;
             var n := DigitsValue(reel);
             var l := ParseNat(DropFirst(lccn, 2)).value;
             && (p < |doc.nodes| ==> Precedes(n, l, ReelNumber(doc.nodes[p]), ReelLccn(doc.nodes[p])))
             && AllPassed(doc.nodes[c..], key, n, l, p - c)
             && NewReelEntry(key, doc.root.tag).Ok?
             && AddCopiedReel(doc, Some(key), lccn)
                == Ok((InsertAt(doc.nodes, p, NewReelEntry(key, doc.root.tag).value), Some(p)))
    ensures var r := AddCopiedReel(doc, Some(lccn + "/" + reel), lccn);
            && r.Ok?
            && SortedIndex(r.value.0, c)
            && r.value.1 == Some(p)
            && r.value.0 == doc.nodes[..p] + [NewReelEntry(lccn + "/" + reel, doc.root.tag).value] + doc.nodes[p..]
  {
    var key := lccn + "/" + reel;
    NewReelEntryReadsBack(lccn, reel, doc.root.tag);
    var entry := NewReelEntry(key, doc.root.tag).value;
    InsertAfterPassed(doc.nodes, c, p, entry, key, DigitsValue(reel), ParseNat(DropFirst(lccn, 2)).value);
    if p == |doc.nodes| {
      assert doc.nodes[..p] + [entry] + doc.nodes[p..] == doc.nodes + [entry];
    }
  }

  /** The insertion follows the scan's outcome. */
  lemma AddCopiedReelBySlot(doc: Document, key: string, correct: string, n: nat, slot: Slot)
    requires ParseNat(Last(key, 11)) == Some(n)
    requires ReelSlot(WithTag(doc.nodes, NdnpReel), key, n, correct, |WithTag(doc.nodes, NdnpIssue)|) == Ok(slot)
    requires NewReelEntry(key, doc.root.tag).Ok?
    ensures slot.Duplicate? ==> AddCopiedReel(doc, Some(key), correct) == Ok((doc.nodes, None))
    ensures !slot.Duplicate? ==>
              var i := if slot.Before? && slot.index != 0 then slot.index else |doc.nodes|;
              AddCopiedReel(doc, Some(key), correct)
              == Ok((InsertAt(doc.nodes, i, NewReelEntry(key, doc.root.tag).value), Some(i)))
  {
  }

  /**
   * The index-0 quirk: with no issue entry ahead of the reels, a copied
   * reel that sorts before the first reel gets index 0, which the script's
   * `if copied_reel_index:` reads as "no place found", so the entry is
   * appended and the reel entries end up out of order.
   */
  lemma IndexZeroAppends(doc: Document, lccn: string, reel: string)
    requires SortedIndex(doc.nodes, 0) && |doc.nodes| > 0
    requires '/' !in lccn && |reel| == 11 && AllDigits(reel) && ParseNat(DropFirst(lccn, 2)).Some?
    requires !HoldsKey(doc.nodes[0], lccn + "/" + reel)
    requires Precedes(DigitsValue(reel), ParseNat(DropFirst(lccn, 2)).value,
                      ReelNumber(doc.nodes[0]), ReelLccn(doc.nodes[0]))
    ensures var r := AddCopiedReel(doc, Some(lccn + "/" + reel), lccn);
            && r.Ok? && NewReelEntry(lccn + "/" + reel, doc.root.tag).Ok?
            && r.value.0 == doc.nodes + [NewReelEntry(lccn + "/" + reel, doc.root.tag).value]
            && !SortedIndex(r.value.0, 0)
  {
    var nodes := doc.nodes;
    var key := lccn + "/" + reel;
    LayoutFindall(nodes, 0);
    ReelKeyNumber(lccn, reel);
    assert nodes[0..] == nodes;
    NewReelEntryReadsBack(lccn, reel, doc.root.tag);
    var entry := NewReelEntry(key, doc.root.tag).value;
    assert ReelSlot(nodes, key, DigitsValue(reel), lccn, 0) == Ok(Before(0));
    var out := nodes + [entry];
    assert out[0] == nodes[0] && out[|nodes|] == entry;
    assert !NoLater(out[0], out[|nodes|]);
  }

  /** An entry found before an insertion is found at its shifted position after it. */
  lemma ShiftFollows(before: seq<Element>, nodes: seq<Element>, ins: Option<nat>, x: Element, q: nat)
    requires ins.None? ==> nodes == before
    requires ins.Some? ==> nodes == InsertAt(before, ins.value, x)
    requires q < |before|
    ensures Shift(q, ins) < |nodes| && nodes[Shift(q, ins)] == before[q]
  {
    if ins.Some? && ins.value <= q {
      assert nodes[ins.value + 1..] == before[ins.value..];
      assert nodes[q + 1] == nodes[ins.value + 1..][q - ins.value];
    } else if ins.Some? && ins.value < |before| {
      assert nodes[..ins.value] == before[..ins.value];
      assert nodes[q] == nodes[..ins.value][q];
    }
  }

  /** A reel entry of `nodes` is the j-th entry of the reel list, at the j-th reel position. */
  lemma ReelRank(nodes: seq<Element>, q: nat) returns (j: nat)
    requires q < |nodes| && nodes[q].tag == NdnpReel
    ensures j < |TagPositions(nodes, NdnpReel)|
    ensures TagPositions(nodes, NdnpReel)[j] == q && WithTag(nodes, NdnpReel)[j] == nodes[q]
  {
    TagPositionsExactly(nodes, NdnpReel);
    assert q in TagPositions(nodes, NdnpReel);
    j :| 0 <= j < |TagPositions(nodes, NdnpReel)| && TagPositions(nodes, NdnpReel)[j] == q;
  }

  /** Reel positions are increasing. */
  lemma ReelPositionsIncrease(nodes: seq<Element>, i: nat, j: nat)
    requires i <= j < |TagPositions(nodes, NdnpReel)|
    ensures TagPositions(nodes, NdnpReel)[i] <= TagPositions(nodes, NdnpReel)[j]
  {
    TagPositionsExactly(nodes, NdnpReel);
  }

  /** Every reel entry of `nodes` before position q has text, and none holds the key. */
  predicate ClearBefore(nodes: seq<Element>, key: string, q: nat)
  {
    forall q' :: 0 <= q' < q && q' < |nodes| && nodes[q'].tag == NdnpReel ==>
      nodes[q'].text.Some? && !HoldsKey(nodes[q'], key)
  }

  /** The reel entry at q is the first one without text. */
  predicate FirstWithoutText(nodes: seq<Element>, key: string, q: nat)
  {
    q < |nodes| && nodes[q].tag == NdnpReel && nodes[q].text.None? && ClearBefore(nodes, key, q)
  }

  /** The reel entry at q is the first one whose text holds the key. */
  predicate FirstHolding(nodes: seq<Element>, key: string, q: nat)
  {
    q < |nodes| && nodes[q].tag == NdnpReel && HoldsKey(nodes[q], key) && ClearBefore(nodes, key, q)
  }

  /** The reel list is clear up to index m exactly when the children are clear up to its position. */
  lemma ClearBeforeRank(nodes: seq<Element>, key: string, m: nat)
    requires m < |TagPositions(nodes, NdnpReel)|
    requires forall i :: 0 <= i < m ==> WithTag(nodes, NdnpReel)[i].text.Some? && !HoldsKey(WithTag(nodes, NdnpReel)[i], key)
    ensures ClearBefore(nodes, key, TagPositions(nodes, NdnpReel)[m])
  {
    var ps := TagPositions(nodes, NdnpReel);
    forall q' | 0 <= q' < ps[m] && nodes[q'].tag == NdnpReel
      ensures nodes[q'].text.Some? && !HoldsKey(nodes[q'], key)
    {
      var i := ReelRank(nodes, q');
      if i >= m {
        ReelPositionsIncrease(nodes, m, i);
      }
    }
  }

  /** Removing a deleted reel's entry fails exactly when a reel entry without text comes first. */
  lemma DropDeletedReelFails(before: seq<Element>, nodes: seq<Element>, ins: Option<nat>, key: string)
    requires |nodes| == |before| + (if ins.Some? then 1 else 0)
    ensures DropDeletedReel(before, nodes, ins, key).Err? <==> exists q :: FirstWithoutText(before, key, q)
  {
    var reels := WithTag(before, NdnpReel);
    var ps := TagPositions(before, NdnpReel);
    if FirstContaining(reels, key).Err? {
      var j :| 0 <= j < |reels| && reels[j].text.None?
               && forall i :: 0 <= i < j ==> reels[i].text.Some? && !HoldsKey(reels[i], key);
      ClearBeforeRank(before, key, j);
      TagPositionsExactly(before, NdnpReel);
      assert FirstWithoutText(before, key, ps[j]);
    } else if exists q :: FirstWithoutText(before, key, q) {
      var q :| FirstWithoutText(before, key, q);
      var j := ReelRank(before, q);
      forall i | 0 <= i < j
        ensures reels[i].text.Some? && !HoldsKey(reels[i], key)
      {
        ReelPositionsStrict(before, i, j);
        TagPositionsExactly(before, NdnpReel);
        assert before[ps[i]] == reels[i] && reels[i].tag == NdnpReel;
      }
      assert false;
    }
  }

  /** Distinct ranks have distinct positions. */
  lemma ReelPositionsStrict(nodes: seq<Element>, i: nat, j: nat)
    requires i < j < |TagPositions(nodes, NdnpReel)|
    ensures TagPositions(nodes, NdnpReel)[i] < TagPositions(nodes, NdnpReel)[j]
  {
    TagPositionsExactly(nodes, NdnpReel);
  }

  /**
   * When no earlier reel entry lacks text, removing a deleted reel's entry
   * takes out the first reel entry of the earlier list whose text holds the
   * key, at the position the insertion moved it to, or changes nothing when
   * none holds it.
   */
  lemma DropDeletedReelRemoves(before: seq<Element>, nodes: seq<Element>, ins: Option<nat>, x: Element, key: string)
    requires ins.None? ==> nodes == before
    requires ins.Some? ==> nodes == InsertAt(before, ins.value, x)
    requires DropDeletedReel(before, nodes, ins, key).Ok?
    ensures var r := DropDeletedReel(before, nodes, ins, key).value;
            || (r == nodes && ClearBefore(before, key, |before|))
            || exists q: nat :: && FirstHolding(before, key, q)
                           && Shift(q, ins) < |nodes| && nodes[Shift(q, ins)] == before[q]
                           && r == nodes[..Shift(q, ins)] + nodes[Shift(q, ins) + 1..]
  {
    var reels := WithTag(before, NdnpReel);
    var ps := TagPositions(before, NdnpReel);
    var found := FirstContaining(reels, key);
    if found.value.None? {
      forall q' | 0 <= q' < |before| && before[q'].tag == NdnpReel
        ensures before[q'].text.Some? && !HoldsKey(before[q'], key)
      {
        var i := ReelRank(before, q');
      }
    } else {
      var m := found.value.value;
      ClearBeforeRank(before, key, m);
      ShiftFollows(before, nodes, ins, x, ps[m]);
      TagPositionsExactly(before, NdnpReel);
      assert FirstHolding(before, key, ps[m]);
    }
  }
  /** On well-formed reel entries the search for a key never fails. */
  lemma FirstContainingOk(reels: seq<Element>, key: string)
    requires forall j :: 0 <= j < |reels| ==> WellFormedReel(reels[j])
    ensures FirstContaining(reels, key).Ok?
  {
  }

  /**
   * The two outcomes of a search that does not fail: nothing removed, or
   * the found entry removed at the position the insertion moved it to.
   */
  lemma DropDeletedReelCases(before: seq<Element>, nodes: seq<Element>, ins: Option<nat>, key: string) returns (q: Option<nat>)
    requires |nodes| == |before| + (if ins.Some? then 1 else 0)
    requires FirstContaining(WithTag(before, NdnpReel), key).Ok?
    ensures var found := FirstContaining(WithTag(before, NdnpReel), key).value;
            && (q.None? <==> found.None?)
            && (q.None? ==> DropDeletedReel(before, nodes, ins, key) == Ok(nodes))
            && (q.Some? ==> && found.value < |TagPositions(before, NdnpReel)|
                            && q.value == Shift(TagPositions(before, NdnpReel)[found.value], ins)
                            && q.value < |nodes|
                            && DropDeletedReel(before, nodes, ins, key) == Ok(nodes[..q.value] + nodes[q.value + 1..]))
  {
    var found := FirstContaining(WithTag(before, NdnpReel), key).value;
    if found.Some? {
      q := Some(Shift(TagPositions(before, NdnpReel)[found.value], ins));
    } else {
      q := None;
    }
  }

  /**
   * The search for a deleted reel's key does not fail, and what it finds
   * is a reel entry at or after position `c`.
   */
  predicate SearchFindsReel(before: seq<Element>, key: string, c: nat)
  {
    var found := FirstContaining(WithTag(before, NdnpReel), key);
    && found.Ok?
    && (found.value.Some? ==> && found.value.value < |TagPositions(before, NdnpReel)|
                              && TagPositions(before, NdnpReel)[found.value.value] >= c)
  }

  /** Dropping a deleted reel's entry from a sorted index, when the search finds a reel entry, never fails and keeps it sorted. */
  lemma DropKeepsSorted(before: seq<Element>, nodes: seq<Element>, ins: Option<nat>, key: string, c: nat)
    requires SortedIndex(nodes, c) && SearchFindsReel(before, key, c)
    requires |nodes| == |before| + (if ins.Some? then 1 else 0)
    ensures var r := DropDeletedReel(before, nodes, ins, key);
            r.Ok? && SortedIndex(r.value, c)
  {
    var q := DropDeletedReelCases(before, nodes, ins, key);
    if q.Some? {
      assert c <= q.value by {
        var found := FirstContaining(WithTag(before, NdnpReel), key).value.value;
        assert c <= TagPositions(before, NdnpReel)[found];
      }
      RemoveKeepsSorted(nodes, c, q.value);
    }
  }

  /** In the index layout the search for a key never fails, and finds a reel entry. */
  lemma ReelSearchOk(before: seq<Element>, c: nat, key: string)
    requires IssuesThenReels(before, c)
    ensures SearchFindsReel(before, key, c)
  {
    LayoutFindall(before, c);
    ReelsWellFormed(before, c);
    FirstContainingOk(WithTag(before, NdnpReel), key);
  }

  /**
   * Both reel updates together keep a sorted index sorted: with at least
   * one issue entry ahead of the reels, adding the copied reel
   * `<lccn>/<reel>` under the correct LCCN and dropping any deleted reel's
   * entry never fail and leave the reel entries in order.
   */
  lemma ReelUpdatesKeepOrder(doc: Document, lccn: string, reel: string, copy: bool, deleted: Option<string>, c: nat)
    requires SortedIndex(doc.nodes, c) && c > 0
    requires '/' !in lccn && |reel| == 11 && AllDigits(reel) && ParseNat(DropFirst(lccn, 2)).Some?
    ensures var r := UpdateReels(doc, if copy then Some(lccn + "/" + reel) else None, deleted, lccn);
            r.Ok? && r.value.root == doc.root && SortedIndex(r.value.nodes, c)
  {
    var copied := if copy then Some(lccn + "/" + reel) else None;
    if copy {
      CopiedReelKeepsOrder(doc, lccn, reel, c);
    }
    var added := AddCopiedReel(doc, copied, lccn);
    assert added.Ok? && SortedIndex(added.value.0, c);
    if deleted.Some? {
      ReelSearchOk(doc.nodes, c, deleted.value);
      DropKeepsSorted(doc.nodes, added.value.0, added.value.1, deleted.value, c);
    }
  }
}
