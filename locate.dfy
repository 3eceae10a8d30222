/**
 * The path locators of both scripts. The directory walk itself is the input:
 * the sequence of (directory, subdirectory names) steps that `os.walk` yields,
 * in whatever order it yields them. Only subdirectory names are tested; files
 * are ignored.
 */
module Locate {
  import opened Wrappers
  import opened Errors
  import opened Strings

  /** One step of `os.walk`: a directory and the names of its subdirectories. */
  datatype WalkEntry = WalkEntry(root: string, dirs: seq<string>)

  // ---------------------------------------------------------------------------
  // Substring match on a directory's base name (find_lccn_paths, find_bad_date_paths)

  /** The paths of the subdirectories of one walk step whose names contain the needle. */
  function MatchingNames(root: string, dirs: seq<string>, needle: string): seq<string>
    decreases |dirs|
  {
    if |dirs| == 0 then []
    else (if Contains(dirs[0], needle) then [PathJoin(root, dirs[0])] else [])
         + MatchingNames(root, dirs[1..], needle)
  }

  /** The paths of all walked subdirectories whose names contain the needle, in walk order. */
  function DirsContaining(walk: seq<WalkEntry>, needle: string): seq<string>
    decreases |walk|
  {
    if |walk| == 0 then []
    else MatchingNames(walk[0].root, walk[0].dirs, needle) + DirsContaining(walk[1..], needle)
  }

  /** The loop shared by both scripts' `find_lccn_paths` and by `find_bad_date_paths`. */
  method FindDirsContaining(walk: seq<WalkEntry>, needle: string) returns (paths: seq<string>)
    ensures paths == DirsContaining(walk, needle)
  {
    paths := [];
    var i := 0;
    assert walk[0..] == walk;
    while i < |walk|
      invariant 0 <= i <= |walk|
      invariant paths + DirsContaining(walk[i..], needle) == DirsContaining(walk, needle)
    {
      var later := DirsContaining(walk[i + 1..], needle);
      assert walk[i..][1..] == walk[i + 1..];
      var found := MatchingNames(walk[i].root, walk[i].dirs, needle);
      assert paths + (found + later) == paths + found + later;
      paths := AppendMatchingNames(paths, walk[i].root, walk[i].dirs, needle);
      i := i + 1;
    }
    assert DirsContaining(walk[i..], needle) == [];
    assert paths + [] == paths;
  }

  /** The inner loop over one walk step's subdirectories, appending the matching paths. */
  method AppendMatchingNames(paths: seq<string>, root: string, dirs: seq<string>, needle: string) returns (out: seq<string>)
    ensures out == paths + MatchingNames(root, dirs, needle)
  {
    out := paths;
    var j := 0;
    assert dirs[0..] == dirs;
    while j < |dirs|
      invariant 0 <= j <= |dirs|
      invariant out + MatchingNames(root, dirs[j..], needle) == paths + MatchingNames(root, dirs, needle)
    {
      assert dirs[j..][1..] == dirs[j + 1..];
      var hit := if Contains(dirs[j], needle) then [PathJoin(root, dirs[j])] else [];
      var rest := MatchingNames(root, dirs[j + 1..], needle);
      assert out + (hit + rest) == (out + hit) + rest;
      out := out + hit;
      j := j + 1;
    }
    assert out + [] == out;
  }

  lemma {:induction false} MatchingNamesExactly(root: string, dirs: seq<string>, needle: string, p: string)
    ensures p in MatchingNames(root, dirs, needle)
            <==> exists j :: 0 <= j < |dirs| && Contains(dirs[j], needle) && p == PathJoin(root, dirs[j])
    decreases |dirs|
  {
    if |dirs| > 0 {
      MatchingNamesExactly(root, dirs[1..], needle, p);
      if p in MatchingNames(root, dirs[1..], needle) {
        var j :| 0 <= j < |dirs[1..]| && Contains(dirs[1..][j], needle) && p == PathJoin(root, dirs[1..][j]);
        assert dirs[j + 1] == dirs[1..][j];
      }
      if exists j :: 0 <= j < |dirs| && Contains(dirs[j], needle) && p == PathJoin(root, dirs[j]) {
        var j :| 0 <= j < |dirs| && Contains(dirs[j], needle) && p == PathJoin(root, dirs[j]);
        if j > 0 {
          assert dirs[1..][j - 1] == dirs[j];
        }
      }
    }
  }

  /**
   * A path is located exactly when it joins a walked directory with one of
   * its subdirectory names that contains the needle.
   */
  lemma {:induction false} DirsContainingExactly(walk: seq<WalkEntry>, needle: string, p: string)
    ensures p in DirsContaining(walk, needle)
            <==> exists k, j :: 0 <= k < |walk| && 0 <= j < |walk[k].dirs|
                   && Contains(walk[k].dirs[j], needle) && p == PathJoin(walk[k].root, walk[k].dirs[j])
    decreases |walk|
  {
    if |walk| > 0 {
      DirsContainingExactly(walk[1..], needle, p);
      MatchingNamesExactly(walk[0].root, walk[0].dirs, needle, p);
      if p in DirsContaining(walk[1..], needle) {
        var k, j :| 0 <= k < |walk[1..]| && 0 <= j < |walk[1..][k].dirs|
          && Contains(walk[1..][k].dirs[j], needle) && p == PathJoin(walk[1..][k].root, walk[1..][k].dirs[j]);
        assert walk[k + 1] == walk[1..][k];
      }
      if exists k, j :: 0 <= k < |walk| && 0 <= j < |walk[k].dirs|
           && Contains(walk[k].dirs[j], needle) && p == PathJoin(walk[k].root, walk[k].dirs[j]) {
        var k, j :| 0 <= k < |walk| && 0 <= j < |walk[k].dirs|
          && Contains(walk[k].dirs[j], needle) && p == PathJoin(walk[k].root, walk[k].dirs[j]);
        if k > 0 {
          assert walk[1..][k - 1] == walk[k];
        }
      }
    }
  }

  /**
   * The date-fix script's locators: finding nothing ends the run with exit
   * status 1 (`sys.exit(1)`), modelled as the `NotFound` error.
   */
  function Located(walk: seq<WalkEntry>, needle: string): Result<seq<string>, Error>
  {
    var paths := DirsContaining(walk, needle);
    if |paths| == 0 then Err(NotFound(needle)) else Ok(paths)
  }

  /** `find_lccn_paths` of the date-fix script. */
  method FindLccnPathsOrExit(walk: seq<WalkEntry>, lccn: string) returns (r: Result<seq<string>, Error>)
    ensures r == Located(walk, lccn)
  {
    var paths := FindDirsContaining(walk, lccn);
    if |paths| == 0 {
      r := Err(NotFound(lccn));
    } else {
      r := Ok(paths);
    }
  }

  /** `find_bad_date_paths`: the needle is the bad date with its hyphens removed. */
  method FindBadDatePaths(walk: seq<WalkEntry>, badDate: string) returns (r: Result<seq<string>, Error>)
    ensures r == Located(walk, StripHyphens(badDate))
  {
    r := FindLccnPathsOrExit(walk, StripHyphens(badDate));
  }

  /** The date-fix locators fail exactly when no subdirectory name contains the needle. */
  lemma LocatedFailsIffNoMatch(walk: seq<WalkEntry>, needle: string)
    ensures Located(walk, needle).Err?
            <==> forall k, j :: 0 <= k < |walk| && 0 <= j < |walk[k].dirs| ==> !Contains(walk[k].dirs[j], needle)
  {
    var paths := DirsContaining(walk, needle);
    if |paths| > 0 {
      DirsContainingExactly(walk, needle, paths[0]);
    } else {
      forall k, j | 0 <= k < |walk| && 0 <= j < |walk[k].dirs|
        ensures !Contains(walk[k].dirs[j], needle)
      {
        DirsContainingExactly(walk, needle, PathJoin(walk[k].root, walk[k].dirs[j]));
      }
    }
  }

  // ---------------------------------------------------------------------------
  // The inclusive date window on issue directory names (find_effected_issue_paths)

  predicate IsLeapYear(y: nat)
  {
    y % 4 == 0 && (y % 100 != 0 || y % 400 == 0)
  }

  function DaysInMonth(y: nat, m: nat): nat
  {
    if m == 2 then (if IsLeapYear(y) then 29 else 28)
    else if m == 4 || m == 6 || m == 9 || m == 11 then 30
    else 31
  }

  /** The calendar dates `datetime` accepts. */
  predicate ValidYmd(y: nat, m: nat, d: nat)
  {
    1 <= y && 1 <= m <= 12 && 1 <= d <= DaysInMonth(y, m)
  }

  /** The numeric form `YYYYMMDD` of a date. */
  function Ymd(y: nat, m: nat, d: nat): nat
  {
    y * 10000 + m * 100 + d
  }

  lemma {:induction false} DigitsValueConcat(a: string, b: string)
    requires AllDigits(a) && AllDigits(b)
    ensures AllDigits(a + b)
    ensures DigitsValue(a + b) == DigitsValue(a) * Pow10(|b|) + DigitsValue(b)
    decreases |b|
  {
    AllDigitsConcat(a, b);
    if |b| > 0 {
      var b' := b[..|b| - 1];
      assert AllDigits(b') by {
        assert forall i :: 0 <= i < |b'| ==> b'[i] == b[i];
      }
      assert (a + b)[..|a + b| - 1] == a + b';
      assert (a + b)[|a + b| - 1] == b[|b| - 1];
      DigitsValueConcat(a, b');
      ShiftOneDigit(DigitsValue(a), Pow10(|b'|), DigitsValue(b'), b[|b| - 1] as int - '0' as int);
    } else {
      assert a + b == a;
    }
  }

  lemma AllDigitsConcat(a: string, b: string)
    requires AllDigits(a) && AllDigits(b)
    ensures AllDigits(a + b)
  {
    assert forall i :: 0 <= i < |a + b| ==> (a + b)[i] == if i < |a| then a[i] else b[i - |a|];
  }

  /** Appending one digit to a number made of a high part and a low part appends it to the low part. */
  lemma ShiftOneDigit(high: int, scale: int, low: int, digit: int)
    ensures (high * scale + low) * 10 + digit == high * (10 * scale) + (low * 10 + digit)
  {
    assert (high * scale) * 10 == high * (10 * scale);
  }

  function Pow10(n: nat): nat
  {
    if n == 0 then 1 else 10 * Pow10(n - 1)
  }

  /**
   * `datetime.strptime(s, "%Y%m%d")` on the eight leading characters of an
   * issue directory name: four year digits, two month digits, two day
   * digits, forming a real calendar date; the date is then the number the
   * eight digits spell.
   */
  function ParseDate8(s: string): (r: Option<nat>)
    requires |s| == 8
    ensures r.Some? <==> AllDigits(s) && ValidYmd(DigitsValue(s[..4]), DigitsValue(s[4..6]), DigitsValue(s[6..]))
    ensures r.Some? ==> r.value == DigitsValue(s)
  {
    if AllDigits(s) then
      var y, m, d := DigitsValue(s[..4]), DigitsValue(s[4..6]), DigitsValue(s[6..]);
      if ValidYmd(y, m, d) then
        DigitsValueConcat(s[..4], s[4..6]);
        assert s[..4] + s[4..6] == s[..6];
        DigitsValueConcat(s[..6], s[6..]);
        assert s[..6] + s[6..] == s;
        Some(Ymd(y, m, d))
      else None
    else None
  }

  /**
   * Comparing the numbers `YYYYMMDD` orders calendar dates as `datetime`
   * does: by year, then month, then day.
   */
  lemma YmdOrder(y1: nat, m1: nat, d1: nat, y2: nat, m2: nat, d2: nat)
    requires ValidYmd(y1, m1, d1) && ValidYmd(y2, m2, d2)
    ensures Ymd(y1, m1, d1) <= Ymd(y2, m2, d2)
            <==> y1 < y2 || (y1 == y2 && (m1 < m2 || (m1 == m2 && d1 <= d2)))
  {
    if y1 < y2 {
      assert Ymd(y1, m1, d1) < (y1 + 1) * 10000 <= Ymd(y2, m2, d2);
    } else if y1 > y2 {
      assert Ymd(y2, m2, d2) < (y2 + 1) * 10000 <= Ymd(y1, m1, d1);
    }
  }

  /** An issue directory inside the window: ten characters whose date lies in [start, end]. */
  predicate InWindow(name: string, start: nat, end: nat)
  {
    |name| == 10 && var d := ParseDate8(name[..8]); d.Some? && start <= d.value <= end
  }

  /** A ten-character name whose first eight characters strptime rejects. */
  predicate Unparsable(name: string)
  {
    |name| == 10 && ParseDate8(name[..8]).None?
  }

  /** `ps` followed by the paths of `r`, or the error of `r`. */
  function Prepend(ps: seq<string>, r: Result<seq<string>, Error>): Result<seq<string>, Error>
  {
    match r
    case Ok(qs) => Ok(ps + qs)
    case Err(e) => Err(e)
  }

  /** The paths of `r1` followed by those of `r2`; the first error wins. */
  function Then(r1: Result<seq<string>, Error>, r2: Result<seq<string>, Error>): Result<seq<string>, Error>
  {
    match r1
    case Ok(ps) => Prepend(ps, r2)
    case Err(e) => Err(e)
  }

  /** The subdirectories of one walk step inside the window, or the first name strptime rejects. */
  function WindowNames(root: string, dirs: seq<string>, start: nat, end: nat): Result<seq<string>, Error>
    decreases |dirs|
  {
    if |dirs| == 0 then Ok([])
    else if |dirs[0]| == 10 then
      match ParseDate8(dirs[0][..8])
      case None => Err(BadDate(dirs[0]))
      case Some(d) =>
        Prepend(if start <= d <= end then [PathJoin(root, dirs[0])] else [],
                WindowNames(root, dirs[1..], start, end))
    else WindowNames(root, dirs[1..], start, end)
  }

  /** The issue directories of the whole walk inside the window, in walk order. */
  function IssuesInWindow(walk: seq<WalkEntry>, start: nat, end: nat): Result<seq<string>, Error>
    decreases |walk|
  {
    if |walk| == 0 then Ok([])
    else Then(WindowNames(walk[0].root, walk[0].dirs, start, end), IssuesInWindow(walk[1..], start, end))
  }

  lemma PrependPrepend(ps: seq<string>, qs: seq<string>, r: Result<seq<string>, Error>)
    ensures Prepend(ps, Prepend(qs, r)) == Prepend(ps + qs, r)
  {
    if r.Ok? {
      assert ps + (qs + r.value) == (ps + qs) + r.value;
    }
  }

  /**
   * `find_effected_issue_paths`: the start and end dates arrive already
   * parsed; finding nothing is not an error in the LCCN-fix script.
   */
  method FindEffectedIssuePaths(walk: seq<WalkEntry>, start: nat, end: nat) returns (r: Result<seq<string>, Error>)
    ensures r == IssuesInWindow(walk, start, end)
  {
    var paths: seq<string> := [];
    var i := 0;
    assert walk[0..] == walk;
    PrependNothing(IssuesInWindow(walk, start, end));
    while i < |walk|
      invariant 0 <= i <= |walk|
      invariant Prepend(paths, IssuesInWindow(walk[i..], start, end)) == IssuesInWindow(walk, start, end)
    {
      var root, dirs := walk[i].root, walk[i].dirs;
      var later := IssuesInWindow(walk[i + 1..], start, end);
      assert walk[i..][1..] == walk[i + 1..];
      assert dirs[0..] == dirs;
      var j := 0;
      while j < |dirs|
        invariant 0 <= j <= |dirs|
        invariant Prepend(paths, Then(WindowNames(root, dirs[j..], start, end), later))
                  == IssuesInWindow(walk, start, end)
      {
        assert dirs[j..][1..] == dirs[j + 1..];
        var rest := WindowNames(root, dirs[j + 1..], start, end);
        if |dirs[j]| == 10 {
          var d := ParseDate8(dirs[j][..8]);
          if d.None? {
            return Err(BadDate(dirs[j]));
          }
          var hit := if start <= d.value <= end then [PathJoin(root, dirs[j])] else [];
          ThenPrepend(hit, rest, later);
          PrependPrepend(paths, hit, Then(rest, later));
          paths := paths + hit;
        }
        j := j + 1;
      }
      PrependNothing(later);
      i := i + 1;
    }
    r := Ok(paths);
    assert paths + [] == paths;
  }

  lemma PrependNothing(r: Result<seq<string>, Error>)
    ensures Prepend([], r) == r
  {
    if r.Ok? {
      assert [] + r.value == r.value;
    }
  }

  lemma ThenPrepend(ps: seq<string>, r1: Result<seq<string>, Error>, r2: Result<seq<string>, Error>)
    ensures Then(Prepend(ps, r1), r2) == Prepend(ps, Then(r1, r2))
  {
    if r1.Ok? {
      PrependPrepend(ps, r1.value, r2);
    }
  }

  lemma {:induction false} WindowNamesExactly(root: string, dirs: seq<string>, start: nat, end: nat, p: string)
    ensures WindowNames(root, dirs, start, end).Err? <==> exists j :: 0 <= j < |dirs| && Unparsable(dirs[j])
    ensures WindowNames(root, dirs, start, end).Ok? ==>
              (p in WindowNames(root, dirs, start, end).value
               <==> exists j :: 0 <= j < |dirs| && InWindow(dirs[j], start, end) && p == PathJoin(root, dirs[j]))
    decreases |dirs|
  {
    if |dirs| > 0 {
      WindowNamesExactly(root, dirs[1..], start, end, p);
      assert forall j :: 0 < j < |dirs| ==> dirs[j] == dirs[1..][j - 1];
      assert forall j :: 0 <= j < |dirs| - 1 ==> dirs[1..][j] == dirs[j + 1];
    }
  }

  /**
   * The window locator returns exactly the walked directories whose names
   * have ten characters and a date within [start, end], both ends included;
   * it fails exactly when some ten-character name is not a date.
   */
  lemma {:induction false} IssuesInWindowExactly(walk: seq<WalkEntry>, start: nat, end: nat, p: string)
    ensures IssuesInWindow(walk, start, end).Err?
            <==> exists k, j :: 0 <= k < |walk| && 0 <= j < |walk[k].dirs| && Unparsable(walk[k].dirs[j])
    ensures IssuesInWindow(walk, start, end).Ok? ==>
              (p in IssuesInWindow(walk, start, end).value
               <==> exists k, j :: 0 <= k < |walk| && 0 <= j < |walk[k].dirs|
                      && InWindow(walk[k].dirs[j], start, end) && p == PathJoin(walk[k].root, walk[k].dirs[j]))
    decreases |walk|
  {
    if |walk| > 0 {
      IssuesInWindowExactly(walk[1..], start, end, p);
      WindowNamesExactly(walk[0].root, walk[0].dirs, start, end, p);
      assert forall k :: 0 < k < |walk| ==> walk[k] == walk[1..][k - 1];
      assert forall k :: 0 <= k < |walk| - 1 ==> walk[1..][k] == walk[k + 1];
    }
  }
}
