/** The Python `str` operations the review pipeline relies on, over
    `string` (a `seq<char>`): whitespace stripping, substring search,
    `replace`, `split` on one character, `join`, and ASCII lower-casing. */
module Strings {
  import opened Wrappers

  /** Python's `str.isspace()` on one character: exactly the characters
      that `str.strip()` with no argument removes. */
  predicate IsSpace(c: char) {
    c in Whitespace
  }

  const Whitespace: set<char> := {
    ' ', '\t', '\n', '\U{0B}', '\U{0C}', '\r', '\U{1C}', '\U{1D}', '\U{1E}', '\U{1F}',
    '\U{85}', '\U{A0}', '\U{1680}', '\U{2000}', '\U{2001}', '\U{2002}', '\U{2003}',
    '\U{2004}', '\U{2005}', '\U{2006}', '\U{2007}', '\U{2008}', '\U{2009}', '\U{200A}',
    '\U{2028}', '\U{2029}', '\U{202F}', '\U{205F}', '\U{3000}'
  }

  predicate AllSpace(s: string) {
    forall i :: 0 <= i < |s| ==> IsSpace(s[i])
  }

  /** Neither end of `s` is whitespace: the shape `str.strip()` leaves. */
  predicate IsStripped(s: string) {
    |s| == 0 || (!IsSpace(s[0]) && !IsSpace(s[|s| - 1]))
  }

  /** `s.lstrip()`: the longest suffix of `s` not starting with whitespace. */
  function TrimStart(s: string): (r: string)
    ensures |r| <= |s| && r == s[|s| - |r|..]
    ensures AllSpace(s[..|s| - |r|])
    ensures |r| == 0 || !IsSpace(r[0])
    decreases |s|
  {
    if |s| > 0 && IsSpace(s[0]) then
      var r := TrimStart(s[1..]);
      assert s[..|s| - |r|] == [s[0]] + s[1..][..|s| - 1 - |r|];
      SpacesJoin([s[0]], s[1..][..|s| - 1 - |r|]);
      assert s[1..][|s| - 1 - |r|..] == s[|s| - |r|..];
      r
    else
      s
  }

  /** Whitespace runs join into a whitespace run. */
  lemma SpacesJoin(a: string, b: string)
    requires AllSpace(a) && AllSpace(b)
    ensures AllSpace(a + b)
  {
    assert forall i :: 0 <= i < |a + b| ==> (a + b)[i] == if i < |a| then a[i] else b[i - |a|];
  }

  /** `s.rstrip()`: the longest prefix of `s` not ending with whitespace. */
  function TrimEnd(s: string): (r: string)
    ensures |r| <= |s| && r == s[..|r|]
    ensures AllSpace(s[|r|..])
    ensures |r| == 0 || !IsSpace(r[|r| - 1])
    decreases |s|
  {
    if |s| > 0 && IsSpace(s[|s| - 1]) then
      var r := TrimEnd(s[..|s| - 1]);
      assert s[|r|..] == s[..|s| - 1][|r|..] + [s[|s| - 1]];
      SpacesJoin(s[..|s| - 1][|r|..], [s[|s| - 1]]);
      assert s[..|s| - 1][..|r|] == s[..|r|];
      r
    else
      s
  }

  /** `s.strip()`: `s` without its leading and trailing whitespace.
      Its meaning is stated by `StripSpec`; the function itself carries no
      postcondition so that using it does not drag the whole
      characterisation into every proof. */
  function Strip(s: string): string
    decreases |s|
  {
    if |s| > 0 && IsSpace(s[0]) then Strip(s[1..]) else TrimEnd(s)
  }

  /** `strip()` removes only leading and trailing whitespace: its result
      is the window of `s` starting at the returned index, with nothing but
      whitespace on either side of it. */
  lemma {:induction false} StripWindow(s: string) returns (i: nat)
    ensures var r := Strip(s);
      && i + |r| <= |s| && r == s[i..i + |r|]
      && AllSpace(s[..i]) && AllSpace(s[i + |r|..])
    decreases |s|
  {
    var r := Strip(s);
    if |s| > 0 && IsSpace(s[0]) {
      assert r == Strip(s[1..]);
      var j := StripWindow(s[1..]);
      WindowShift(s, r, j);
      i := j + 1;
    } else {
      i := 0;
      assert s[0..|r|] == r;
      assert s[..0] == [];
    }
  }

  /** A leading whitespace character widens the left margin of a window
      with only whitespace outside it. */
  lemma WindowShift(s: string, r: string, j: nat)
    requires |s| > 0 && IsSpace(s[0])
    requires j + |r| <= |s| - 1 && r == s[1..][j..j + |r|]
    requires AllSpace(s[1..][..j]) && AllSpace(s[1..][j + |r|..])
    ensures r == s[j + 1..j + 1 + |r|] && AllSpace(s[..j + 1]) && AllSpace(s[j + 1 + |r|..])
  {
    var t := s[1..];
    assert t[j..j + |r|] == s[j + 1..j + 1 + |r|];
    assert s[..j + 1] == [s[0]] + t[..j];
    SpacesJoin([s[0]], t[..j]);
    assert s[j + 1 + |r|..] == t[j + |r|..];
  }

  /** What `strip()` returns has no whitespace at either end. */
  lemma {:induction false} StripIsStripped(s: string)
    ensures IsStripped(Strip(s))
    decreases |s|
  {
    if |s| > 0 && IsSpace(s[0]) {
      StripIsStripped(s[1..]);
    } else {
      var r := TrimEnd(s);
      if |r| > 0 {
        assert r[0] == s[0];
      }
    }
  }

  /** `strip()` yields the empty string exactly for all-whitespace input. */
  lemma StripEmptyIff(s: string)
    ensures Strip(s) == "" <==> AllSpace(s)
  {
    var i := StripWindow(s);
    StripIsStripped(s);
    var r := Strip(s);
    if r == "" {
      assert s == s[..i] + s[i..];
    } else {
      assert r[0] == s[i];
    }
  }

  /** Stripping a string that already has no whitespace at either end
      leaves it unchanged; in particular `Strip` is idempotent. */
  lemma StripStripped(s: string)
    requires IsStripped(s)
    ensures Strip(s) == s
  {
    if |s| > 0 {
      assert !IsSpace(s[0]);
    }
  }

  /** Joining two stripped, non-empty pieces around any separator keeps
      the whole stripped, whatever the separator holds. */
  lemma StrippedConcat(a: string, sep: string, b: string)
    requires a != "" && b != "" && IsStripped(a) && IsStripped(b)
    ensures IsStripped(a + sep + b)
  {
    var s := a + sep + b;
    assert s[0] == a[0];
    assert s[|s| - 1] == b[|b| - 1];
  }

  /** The index of the first occurrence of `pat` in `s` (Python's
      `s.find(pat)`), or `None` when there is none. */
  function IndexOf(s: string, pat: string): Option<nat>
    decreases |s|
  {
    if pat <= s then Some(0)
    else if |s| == 0 then None
    else
      match IndexOf(s[1..], pat)
      case None => None
      case Some(i) => Some(i + 1)
  }

  /** `find` reports the first position at which `pat` occurs, and `None`
      only when it occurs nowhere. */
  lemma {:induction false} IndexOfSpec(s: string, pat: string)
    ensures var r := IndexOf(s, pat);
      (r.Some? ==> r.value + |pat| <= |s| && pat <= s[r.value..]) &&
      (r.Some? ==> forall j :: 0 <= j < r.value ==> !(pat <= s[j..])) &&
      (r.None? ==> forall j :: 0 <= j <= |s| ==> !(pat <= s[j..]))
    decreases |s|
  {
    assert s[0..] == s;
    if !(pat <= s) && |s| > 0 {
      IndexOfSpec(s[1..], pat);
      forall j | 1 <= j <= |s|
        ensures s[j..] == s[1..][j - 1..]
      {
      }
    }
  }

  /** Python's `pat in s` for strings. */
  predicate Contains(s: string, pat: string) {
    IndexOf(s, pat).Some?
  }

  /** An occurrence of `pat` at position `i` makes `pat in s` true. */
  lemma ContainsAt(s: string, pat: string, i: nat)
    requires i + |pat| <= |s| && s[i..i + |pat|] == pat
    ensures Contains(s, pat)
  {
    IndexOfSpec(s, pat);
    assert pat <= s[i..];
  }

  /** When `pat in s` is false, no window of `s` spells `pat`. */
  lemma NotContainsAt(s: string, pat: string, i: nat)
    requires !Contains(s, pat)
    requires i + |pat| <= |s|
    ensures s[i..i + |pat|] != pat
  {
    if s[i..i + |pat|] == pat {
      ContainsAt(s, pat, i);
    }
  }

  /** A string always contains its own suffix. */
  lemma ContainsSuffix(prefix: string, pat: string)
    ensures Contains(prefix + pat, pat)
  {
    var s := prefix + pat;
    assert s[|prefix|..|prefix| + |pat|] == pat;
    ContainsAt(s, pat, |prefix|);
  }

  /** An occurrence at `p` with none before it is what `find` reports. */
  lemma IndexOfExact(s: string, pat: string, p: nat)
    requires p <= |s| && pat <= s[p..]
    requires forall j :: 0 <= j < p ==> !(pat <= s[j..])
    ensures IndexOf(s, pat) == Some(p)
  {
    IndexOfSpec(s, pat);
  }

  /** The first `c` in `s` is where `find` locates the one-character
      pattern `[c]`. */
  lemma IndexOfChar(s: string, c: char, p: nat)
    requires p < |s| && s[p] == c && c !in s[..p]
    ensures IndexOf(s, [c]) == Some(p)
  {
    forall j | 0 <= j < p
      ensures !([c] <= s[j..])
    {
      assert s[j] == s[..p][j];
    }
    IndexOfExact(s, [c], p);
  }

  /** A character absent from `s` is not found in it. */
  lemma IndexOfCharAbsent(s: string, c: char)
    requires c !in s
    ensures IndexOf(s, [c]) == None
  {
    IndexOfSpec(s, [c]);
    forall j | 0 <= j <= |s|
      ensures !([c] <= s[j..])
    {
      if j < |s| {
        assert s[j] in s;
      }
    }
  }

  /** A pattern found in `s` is no longer than `s`. */
  lemma ContainsShorter(s: string, pat: string)
    requires Contains(s, pat)
    ensures |pat| <= |s|
  {
    IndexOfSpec(s, pat);
  }

  /** `s.replace(target, repl)`: every non-overlapping occurrence of `target`,
      scanning left to right, replaced by `repl`. */
  function Replace(s: string, target: string, repl: string): string
    requires target != ""
    decreases |s|
  {
    if |s| == 0 then ""
    else if target <= s then repl + Replace(s[|target|..], target, repl)
    else
      [s[0]] + Replace(s[1..], target, repl)
  }

  /** Replacing a pattern that does not occur changes nothing. */
  lemma {:induction false} ReplaceAbsent(s: string, target: string, repl: string)
    requires target != "" && !Contains(s, target)
    ensures Replace(s, target, repl) == s
    decreases |s|
  {
    if |s| > 0 {
      IndexOfSpec(s, target);
      assert s[0..] == s;
      ReplaceAbsent(s[1..], target, repl);
    }
  }

  /** Replacement distributes over a concatenation when no occurrence of
      `target` starts in `a` and runs on into `b`. */
  lemma {:induction false} ReplaceAppend(a: string, b: string, target: string, repl: string)
    requires target != ""
    requires forall i :: 0 <= i < |a| < i + |target| ==> !(target <= (a + b)[i..])
    ensures Replace(a + b, target, repl) == Replace(a, target, repl) + Replace(b, target, repl)
    decreases |a|
  {
    if |a| == 0 {
      assert a + b == b;
    } else if target <= a + b {
      assert (a + b)[0..] == a + b;
      assert |target| <= |a|;
      assert target <= a;
      var a' := a[|target|..];
      assert (a + b)[|target|..] == a' + b;
      forall i | 0 <= i < |a'| < i + |target|
        ensures !(target <= (a' + b)[i..])
      {
        assert (a' + b)[i..] == (a + b)[i + |target|..];
      }
      ReplaceAppend(a', b, target, repl);
    } else {
      assert !(target <= a);
      var a' := a[1..];
      assert (a + b)[1..] == a' + b;
      forall i | 0 <= i < |a'| < i + |target|
        ensures !(target <= (a' + b)[i..])
      {
        assert (a' + b)[i..] == (a + b)[i + 1..];
      }
      ReplaceAppend(a', b, target, repl);
    }
  }

  /** No occurrence of `".git"` can start in `a` and run on into `b` when
      `a` does not end with a proper prefix of it (`.`, `.g`, `.gi`) or `b`
      does not start with the matching rest (`g`, `i`, `t`). */
  lemma NoGitStraddle(a: string, b: string)
    requires (|a| > 0 && a[|a| - 1] !in ".gi") || (|b| > 0 && b[0] !in "git")
    ensures forall i :: 0 <= i < |a| < i + |".git"| ==> !(".git" <= (a + b)[i..])
  {
    forall i | 0 <= i < |a| < i + 4
      ensures !(".git" <= (a + b)[i..])
    {
      var w := (a + b)[i..];
      var k := |a| - i;
      assert w[k - 1] == a[|a| - 1];
      if |b| > 0 {
        assert w[k] == b[0];
      }
      assert ".git"[k - 1] in ".gi" && ".git"[k] in "git";
    }
  }

  /** `sep.join(parts)`. */
  function Join(parts: seq<string>, sep: string): string
    decreases |parts|
  {
    if |parts| == 0 then ""
    else if |parts| == 1 then parts[0]
    else parts[0] + sep + Join(parts[1..], sep)
  }

  /** Joining a part in front of a non-empty list puts one separator
      between it and the rest. */
  lemma JoinCons(first: string, rest: seq<string>, sep: string)
    requires |rest| > 0
    ensures Join([first] + rest, sep) == first + sep + Join(rest, sep)
  {
    assert ([first] + rest)[1..] == rest;
  }

  /** Newline-joining a first line, a blank line, a second line and more
      lines puts one blank line between the first two. */
  lemma JoinWithBlankLine(first: string, second: string, rest: seq<string>)
    requires |rest| > 0
    ensures Join([first] + (["", second] + rest), "\n") == first + "\n\n" + second + "\n" + Join(rest, "\n")
  {
    ListRegroup(first, second, rest);
    JoinCons(second, rest, "\n");
    JoinCons("", [second] + rest, "\n");
    JoinCons(first, [""] + ([second] + rest), "\n");
    BlankLineRegroup(first, second, Join(rest, "\n"));
  }

  lemma ListRegroup(first: string, second: string, rest: seq<string>)
    ensures [first] + (["", second] + rest) == [first] + ([""] + ([second] + rest))
  {
  }

  lemma BlankLineRegroup(first: string, second: string, tail: string)
    ensures first + "\n" + ("" + "\n" + (second + "\n" + tail)) == first + "\n\n" + second + "\n" + tail
  {
  }

  /** A non-empty join ends with the last part. */
  lemma {:induction false} JoinEndsWithLast(parts: seq<string>, sep: string)
    requires |parts| > 0
    ensures var j := Join(parts, sep);
      |parts[|parts| - 1]| <= |j| && j[|j| - |parts[|parts| - 1]|..] == parts[|parts| - 1]
    decreases |parts|
  {
    if |parts| > 1 {
      JoinEndsWithLast(parts[1..], sep);
      var t := Join(parts[1..], sep);
      assert Join(parts, sep) == parts[0] + sep + t;
      var last := parts[|parts| - 1];
      assert parts[1..][|parts[1..]| - 1] == last;
      var j := Join(parts, sep);
      assert j[|j| - |last|..] == t[|t| - |last|..];
    }
  }

  /** `s.split(sep)` for a one-character separator: the pieces between
      separators, keeping empty ones; never an empty list. */
  function Split(s: string, sep: char): (r: seq<string>)
    ensures |r| >= 1
    ensures forall k :: 0 <= k < |r| ==> sep !in r[k]
    ensures Join(r, [sep]) == s
    decreases |s|
  {
    if |s| == 0 then [""]
    else
      var rest := Split(s[1..], sep);
      if s[0] == sep then
        assert Join([""] + rest, [sep]) == "" + [sep] + Join(rest, [sep]);
        [""] + rest
      else
        var r := [[s[0]] + rest[0]] + rest[1..];
        assert r[1..] == rest[1..];
        assert Join(r, [sep]) == [s[0]] + Join(rest, [sep]);
        r
  }

  /** Splitting `a + [sep] + b` where `a` holds no separator peels `a` off
      as the first piece. */
  lemma {:induction false} SplitAfterFirst(a: string, sep: char, b: string)
    requires sep !in a
    ensures Split(a + [sep] + b, sep) == [a] + Split(b, sep)
    decreases |a|
  {
    var s := a + [sep] + b;
    if |a| == 0 {
      assert s[1..] == b;
    } else {
      assert s[1..] == a[1..] + [sep] + b;
      SplitAfterFirst(a[1..], sep, b);
      assert [a[0]] + a[1..] == a;
    }
  }

  /** A string with no separator splits into itself. */
  lemma {:induction false} SplitNone(a: string, sep: char)
    requires sep !in a
    ensures Split(a, sep) == [a]
    decreases |a|
  {
    if |a| > 0 {
      SplitNone(a[1..], sep);
      assert [a[0]] + a[1..] == a;
    }
  }

  /** Splitting `a + [sep] + b` where `b` holds no separator adds `b` as
      the last piece after the pieces of `a`. */
  lemma {:induction false} SplitBeforeLast(a: string, sep: char, b: string)
    requires sep !in b
    ensures Split(a + [sep] + b, sep) == Split(a, sep) + [b]
    decreases |a|
  {
    var s := a + [sep] + b;
    if |a| == 0 {
      assert s == [sep] + b;
      assert s[1..] == b;
      SplitNone(b, sep);
    } else {
      assert s[1..] == a[1..] + [sep] + b;
      SplitBeforeLast(a[1..], sep, b);
    }
  }

  /** Python's `str.lower()` restricted to ASCII letters. */
  function AsciiLowerChar(c: char): (r: char)
    ensures 'A' <= c <= 'Z' ==> 'a' <= r <= 'z' && r as int - c as int == 32
    ensures !('A' <= c <= 'Z') ==> r == c
  {
    if 'A' <= c <= 'Z' then (c as int + 32) as char else c
  }

  function AsciiLower(s: string): (r: string)
    ensures |r| == |s|
    ensures forall i :: 0 <= i < |s| ==> r[i] == AsciiLowerChar(s[i])
  {
    seq(|s|, i requires 0 <= i < |s| => AsciiLowerChar(s[i]))
  }
}
