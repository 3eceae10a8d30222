/**
 * String operations the repair scripts rely on, with Python's semantics:
 * `s.find(t) >= 0`, `s.replace(old, new)` (and `re.sub` on a pattern made of
 * letters and digits only, which behaves the same), `s.split('/')`, `int(s)`
 * on a string of digits, and negative slicing.
 */
module Strings {
  import opened Wrappers

  /** `needle in s`, i.e. `s.find(needle) >= 0`. The empty needle occurs in every string. */
  predicate Contains(s: string, needle: string)
    decreases |s|
  {
    needle <= s || (|s| > 0 && Contains(s[1..], needle))
  }

  /** What Python's `s.replace("", rep)` does: `rep` before every character and at the end. */
  function Interleave(s: string, rep: string): string
    decreases |s|
  {
    if |s| == 0 then rep else rep + [s[0]] + Interleave(s[1..], rep)
  }

  /**
   * `s.replace(pat, rep)`: scan left to right, replace each non-overlapping
   * occurrence of `pat` by `rep`, and never look at `rep` again.
   */
  function ReplaceAll(s: string, pat: string, rep: string): string
    decreases |s|
  {
    if |pat| == 0 then Interleave(s, rep)
    else if |s| == 0 then []
    else if pat <= s then rep + ReplaceAll(s[|pat|..], pat, rep)
    else [s[0]] + ReplaceAll(s[1..], pat, rep)
  }

  /** `s.replace('-', '')`: the "file descriptor" form of a `YYYY-MM-DD` date. */
  function StripHyphens(s: string): string
  {
    ReplaceAll(s, "-", "")
  }

  /**
   * A replacement after which no occurrence of `pat` can be left over:
   * `rep` starts with the first character of `pat`, that character occurs
   * nowhere else in `pat` or `rep`, and `rep` is at least as long as `pat`
   * without beginning with it.
   */
  predicate Safe(pat: string, rep: string)
  {
    && 0 < |pat| <= |rep|
    && rep[0] == pat[0]
    && pat[0] !in pat[1..]
    && pat[0] !in rep[1..]
    && !(pat <= rep)
  }

  /** A string with no occurrence of the needle is left alone by a replacement. */
  lemma {:induction false} ReplaceAllAbsent(s: string, pat: string, rep: string)
    requires |pat| > 0 && !Contains(s, pat)
    ensures ReplaceAll(s, pat, rep) == s
    decreases |s|
  {
    if |s| > 0 {
      ReplaceAllAbsent(s[1..], pat, rep);
    }
  }

  /** Replacing a needle by itself changes nothing. */
  lemma {:induction false} ReplaceAllSelf(s: string, pat: string)
    requires |pat| > 0
    ensures ReplaceAll(s, pat, pat) == s
    decreases |s|
  {
    if |s| == 0 {
    } else if pat <= s {
      ReplaceAllSelf(s[|pat|..], pat);
      assert s == pat + s[|pat|..];
    } else {
      ReplaceAllSelf(s[1..], pat);
      assert s == [s[0]] + s[1..];
    }
  }

  /** An occurrence inside a prefix of `s` is an occurrence in `s`. */
  lemma {:induction false} ContainsInPrefix(t: string, s: string, p: string)
    requires t <= s && Contains(t, p)
    ensures Contains(s, p)
    decreases |t|
  {
    if p <= t {
    } else {
      assert |t| > 0 && Contains(t[1..], p);
      assert t[1..] <= s[1..];
      ContainsInPrefix(t[1..], s[1..], p);
    }
  }

  /** An occurrence at the start of a suffix is an occurrence in the string. */
  lemma {:induction false} ContainsSuffix(s: string, k: nat, p: string)
    requires k <= |s| && p <= s[k..]
    ensures Contains(s, p)
    decreases k
  {
    if k > 0 {
      assert s[1..][k - 1..] == s[k..];
      ContainsSuffix(s[1..], k - 1, p);
    } else {
      assert s[k..] == s;
    }
  }

  /** Occurrence is transitive: a string that contains `t` contains whatever `t` contains. */
  lemma {:induction false} ContainsTrans(s: string, t: string, p: string)
    requires Contains(s, t) && Contains(t, p)
    ensures Contains(s, p)
    decreases |s|
  {
    if t <= s {
      ContainsInPrefix(t, s, p);
    } else {
      ContainsTrans(s[1..], t, p);
    }
  }

  /** A string `u` free of `pat[0]`, put in front of a string free of `pat`, creates no occurrence. */
  lemma {:induction false} NoOccurrenceBehind(u: string, t: string, pat: string)
    requires |pat| > 0 && pat[0] !in u && !Contains(t, pat)
    ensures !Contains(u + t, pat)
    decreases |u|
  {
    if |u| > 0 {
      assert (u + t)[0] == u[0];
      assert (u + t)[1..] == u[1..] + t;
      NoOccurrenceBehind(u[1..], t, pat);
    } else {
      assert u + t == t;
    }
  }

  /**
   * Under a safe replacement, a prefix of the result that avoids `pat[0]`
   * was already a prefix of the input.
   */
  lemma {:induction false} PrefixSurvives(t: string, q: string, pat: string, rep: string)
    requires Safe(pat, rep) && pat[0] !in q
    requires q <= ReplaceAll(t, pat, rep)
    ensures q <= t
    decreases |t|
  {
    if |q| > 0 && |t| > 0 {
      if pat <= t {
        ReplaceAllHead(t, pat, rep);
        assert false;
      } else {
        PrefixSurvives(t[1..], q[1..], pat, rep);
      }
    }
  }

  /** A replacement made at the very start puts the whole replacement text first. */
  lemma ReplaceAllHead(t: string, pat: string, rep: string)
    ensures 0 < |pat| && pat <= t && 0 < |rep| ==> ReplaceAll(t, pat, rep)[0] == rep[0]
  {
  }

  /** After a safe replacement no occurrence of the needle is left. */
  lemma {:induction false} ReplaceAllClears(s: string, pat: string, rep: string)
    requires Safe(pat, rep)
    ensures !Contains(ReplaceAll(s, pat, rep), pat)
    decreases |s|
  {
    if |s| == 0 {
    } else if pat <= s {
      ReplaceAllClears(s[|pat|..], pat, rep);
      NoOccurrenceAfterRep(ReplaceAll(s[|pat|..], pat, rep), pat, rep);
    } else {
      ReplaceAllClears(s[1..], pat, rep);
      NoOccurrenceAfterKept(s, pat, rep);
    }
  }

  /** The replacement text put in front of a text free of the needle creates no occurrence. */
  lemma NoOccurrenceAfterRep(t: string, pat: string, rep: string)
    requires Safe(pat, rep) && !Contains(t, pat)
    ensures !Contains(rep + t, pat)
  {
    NoOccurrenceBehind(rep[1..], t, pat);
    assert (rep + t)[1..] == rep[1..] + t;
    assert !(pat <= rep + t);
  }

  /** A character kept because no occurrence starts there starts none in the output either. */
  lemma NoOccurrenceAfterKept(s: string, pat: string, rep: string)
    requires Safe(pat, rep) && |s| > 0 && !(pat <= s)
    requires !Contains(ReplaceAll(s[1..], pat, rep), pat)
    ensures !Contains([s[0]] + ReplaceAll(s[1..], pat, rep), pat)
  {
    var t := ReplaceAll(s[1..], pat, rep);
    if pat <= [s[0]] + t {
      assert pat[1..] <= t;
      PrefixSurvives(s[1..], pat[1..], pat, rep);
      assert false;
    }
    assert ([s[0]] + t)[1..] == t;
  }

  /** A safe replacement is idempotent: running it again changes nothing. */
  lemma ReplaceAllIdempotent(s: string, pat: string, rep: string)
    requires Safe(pat, rep)
    ensures ReplaceAll(ReplaceAll(s, pat, rep), pat, rep) == ReplaceAll(s, pat, rep)
  {
    ReplaceAllClears(s, pat, rep);
    ReplaceAllAbsent(ReplaceAll(s, pat, rep), pat, rep);
  }

  /** Replacing a one-character needle by text without that character leaves none of it. */
  lemma {:induction false} ReplaceCharClears(s: string, c: char, rep: string)
    requires c !in rep
    ensures c !in ReplaceAll(s, [c], rep)
    decreases |s|
  {
    if |s| > 0 {
      ReplaceCharClears(s[1..], c, rep);
    }
  }

  /** Text without a hyphen is its own hyphen-free form. */
  lemma {:induction false} StripNoHyphen(a: string)
    requires '-' !in a
    ensures StripHyphens(a) == a
    decreases |a|
  {
    if |a| > 0 {
      assert a[0] in a;
      assert !("-" <= a);
      StripNoHyphen(a[1..]);
      assert [a[0]] + a[1..] == a;
    }
  }

  /** Stripping hyphens drops the hyphen after a hyphen-free head and keeps the head. */
  lemma {:induction false} StripConcat(a: string, b: string)
    requires '-' !in a
    ensures StripHyphens(a + "-" + b) == a + StripHyphens(b)
    decreases |a|
  {
    if |a| == 0 {
      assert a + "-" + b == "-" + b;
      assert ("-" + b)[1..] == b;
    } else {
      assert a[0] in a;
      StripConcat(a[1..], b);
      assert (a + "-" + b)[0] == a[0];
      assert (a + "-" + b)[1..] == a[1..] + "-" + b;
      assert [a[0]] + a[1..] == a;
    }
  }

  /** The file-descriptor form of a date has no hyphen left. */
  lemma StripHyphensClears(s: string)
    ensures '-' !in StripHyphens(s)
  {
    ReplaceCharClears(s, '-', "");
  }

  // ---------------------------------------------------------------------------
  // str.split(sep) and its inverse, sep.join(parts)

  /** `s.split(sep)` for a one-character separator: never empty, no part holds `sep`. */
  function Split(s: string, sep: char): (parts: seq<string>)
    ensures |parts| >= 1
    ensures forall i :: 0 <= i < |parts| ==> sep !in parts[i]
    decreases |s|
  {
    if |s| == 0 then [""]
    else
      var rest := Split(s[1..], sep);
      if s[0] == sep then [""] + rest
      else [[s[0]] + rest[0]] + rest[1..]
  }

  /** `sep.join(parts)`. */
  function JoinWith(parts: seq<string>, sep: char): string
    requires |parts| >= 1
    decreases |parts|
  {
    if |parts| == 1 then parts[0] else parts[0] + [sep] + JoinWith(parts[1..], sep)
  }

  /** Joining the parts of a split gives back the string. */
  lemma {:induction false} JoinSplit(s: string, sep: char)
    ensures JoinWith(Split(s, sep), sep) == s
    decreases |s|
  {
    if |s| > 0 {
      JoinSplit(s[1..], sep);
      var rest := Split(s[1..], sep);
      if s[0] != sep && |rest| > 1 {
        assert JoinWith(rest, sep) == rest[0] + [sep] + JoinWith(rest[1..], sep);
      }
    }
  }

  /** Splitting a join of separator-free parts gives back the parts. */
  lemma {:induction false} SplitJoin(parts: seq<string>, sep: char)
    requires |parts| >= 1
    requires forall i :: 0 <= i < |parts| ==> sep !in parts[i]
    ensures Split(JoinWith(parts, sep), sep) == parts
    decreases |parts|
  {
    if |parts| == 1 {
      SplitNoSep(parts[0], sep);
    } else {
      SplitJoin(parts[1..], sep);
      SplitAfterSep(parts[0], JoinWith(parts[1..], sep), sep);
      assert [parts[0]] + parts[1..] == parts;
    }
  }

  /** Splitting around a separator splits each side: `(a + sep + b).split(sep) == a.split(sep) + b.split(sep)`. */
  lemma {:induction false} SplitConcat(a: string, b: string, sep: char)
    ensures Split(a + [sep] + b, sep) == Split(a, sep) + Split(b, sep)
    decreases |a|
  {
    if |a| == 0 {
      assert a + [sep] + b == [sep] + b;
      assert ([sep] + b)[1..] == b;
    } else {
      assert (a + [sep] + b)[1..] == a[1..] + [sep] + b;
      SplitConcat(a[1..], b, sep);
    }
  }

  /** A string never contains a longer one. */
  lemma {:induction false} ContainsNotLonger(s: string, p: string)
    requires |p| > |s|
    ensures !Contains(s, p)
    decreases |s|
  {
    if |s| > 0 {
      ContainsNotLonger(s[1..], p);
    }
  }

  /** A string without the separator splits into itself. */
  lemma {:induction false} SplitNoSep(s: string, sep: char)
    requires sep !in s
    ensures Split(s, sep) == [s]
    decreases |s|
  {
    if |s| > 0 {
      SplitNoSep(s[1..], sep);
      assert [s[0]] + s[1..] == s;
    }
  }

  /** `(a + sep + b).split(sep) == [a] + b.split(sep)` when `a` has no separator. */
  lemma {:induction false} SplitAfterSep(a: string, b: string, sep: char)
    requires sep !in a
    ensures Split(a + [sep] + b, sep) == [a] + Split(b, sep)
    decreases |a|
  {
    if |a| == 0 {
      assert a + [sep] + b == [sep] + b;
      assert ([sep] + b)[1..] == b;
    } else {
      assert (a + [sep] + b)[1..] == a[1..] + [sep] + b;
      SplitAfterSep(a[1..], b, sep);
      assert [a[0]] + a[1..] == a;
    }
  }

  /** `os.path.join(root, name)`. */
  function PathJoin(root: string, name: string): string
  {
    if |name| > 0 && name[0] == '/' then name
    else if |root| == 0 || root[|root| - 1] == '/' then root + name
    else root + "/" + name
  }

  // ---------------------------------------------------------------------------
  // int(s) on decimal digits, and slicing

  predicate IsDigit(c: char) { '0' <= c <= '9' }

  predicate AllDigits(s: string)
  {
    forall i :: 0 <= i < |s| ==> IsDigit(s[i])
  }

  /** The value of a string of decimal digits, most significant first. */
  function DigitsValue(s: string): nat
    requires AllDigits(s)
    decreases |s|
  {
    if |s| == 0 then 0
    else DigitsValue(s[..|s| - 1]) * 10 + (s[|s| - 1] as int - '0' as int)
  }

  /** `int(s)` for strings of ASCII digits; anything else is a ValueError (None). */
  function ParseNat(s: string): (r: Option<nat>)
    ensures r.Some? <==> |s| > 0 && AllDigits(s)
    ensures r.Some? ==> r.value == DigitsValue(s)
  {
    if |s| > 0 && AllDigits(s) then Some(DigitsValue(s)) else None
  }

  /** `s[-n:]` for n > 0. */
  function Last(s: string, n: nat): (r: string)
    ensures |r| == if |s| <= n then |s| else n
    ensures r == s[|s| - |r|..]
  {
    if |s| <= n then s else s[|s| - n..]
  }

  /** `s[:-n]` for n > 0. */
  function DropLast(s: string, n: nat): (r: string)
    ensures r <= s
    ensures |r| == if |s| <= n then 0 else |s| - n
  {
    if |s| <= n then "" else s[..|s| - n]
  }

  /** `s[n:]` for n >= 0. */
  function DropFirst(s: string, n: nat): (r: string)
    ensures |r| == if |s| <= n then 0 else |s| - n
    ensures r == s[|s| - |r|..]
  {
    if |s| <= n then "" else s[n..]
  }
}
