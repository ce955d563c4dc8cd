/** The few string operations of Rust's `str` that the collector relies on:
    `find`, `contains`, `ends_with`, `replace` and `join`, together with the
    comma split that the command line applies to `--features`.  Strings are
    sequences of characters, so `Find` returns a character index where
    `str::find` returns a byte offset.  The two differ once non-ASCII text
    precedes a match, but slicing at them cuts out the same text. */
module Strings {
  import opened Wrappers

  /** `p` occurs in `s` starting at index `i`. */
  predicate OccursAt(s: string, p: string, i: int)
  {
    0 <= i && i + |p| <= |s| && s[i..i + |p|] == p
  }

  /** `i` is the first index at which `p` occurs in `s`. */
  predicate FirstAt(s: string, p: string, i: int)
  {
    OccursAt(s, p, i) && forall j :: 0 <= j < i ==> !OccursAt(s, p, j)
  }

  /** `p` occurs nowhere in `s`. */
  ghost predicate Absent(s: string, p: string)
  {
    forall j :: !OccursAt(s, p, j)
  }

  /** Occurrences in a suffix are occurrences in the whole string, shifted. */
  lemma OccursInSuffix(s: string, p: string, k: nat, j: nat)
    requires k <= |s|
    ensures OccursAt(s[k..], p, j) <==> OccursAt(s, p, k + j)
  {
    if j + |p| <= |s| - k {
      assert s[k..][j..j + |p|] == s[k + j..k + j + |p|];
    }
  }

  /** Occurrences in the tail of a concatenation, shifted by the head. */
  lemma OccursInTail(a: string, b: string, p: string, j: nat)
    ensures OccursAt(b, p, j) <==> OccursAt(a + b, p, |a| + j)
  {
    assert (a + b)[|a|..] == b;
    OccursInSuffix(a + b, p, |a|, j);
  }

  /** `str::find`: the index of the first occurrence of `p` in `s`, if any. */
  function Find(s: string, p: string): (r: Option<nat>)
    ensures r.Some? ==> FirstAt(s, p, r.value)
    ensures r.None? ==> Absent(s, p)
    decreases |s|
  {
    if |p| <= |s| && s[..|p|] == p then Some(0)
    else if s == [] then None
    else
      var tail := Find(s[1..], p);
      assert !OccursAt(s, p, 0) by {
        if |p| <= |s| { assert s[0..|p|] == s[..|p|]; }
      }
      forall j: nat ensures OccursAt(s[1..], p, j) <==> OccursAt(s, p, 1 + j) {
        OccursInSuffix(s, p, 1, j);
      }
      assert forall j :: 1 <= j ==> (OccursAt(s, p, j) <==> OccursAt(s[1..], p, j - 1));
      match tail
      case None => None
      case Some(i) => Some(i + 1)
  }

  /** `str::contains`. */
  predicate Contains(s: string, p: string)
  {
    Find(s, p).Some?
  }

  /** `str::ends_with`. */
  predicate EndsWith(s: string, suffix: string)
  {
    |suffix| <= |s| && s[|s| - |suffix|..] == suffix
  }

  /** `str::replace`: every occurrence of `pat`, scanned left to right
      without overlap, is replaced by `rep`. */
  function Replace(s: string, pat: string, rep: string): string
    requires |pat| > 0
    decreases |s|
  {
    if s == [] then []
    else if OccursAt(s, pat, 0) then rep + Replace(s[|pat|..], pat, rep)
    else [s[0]] + Replace(s[1..], pat, rep)
  }

  /** Replacing a pattern that does not occur changes nothing. */
  lemma {:induction false} ReplaceAbsent(s: string, pat: string, rep: string)
    requires |pat| > 0
    requires Absent(s, pat)
    ensures Replace(s, pat, rep) == s
    decreases |s|
  {
    if s != [] {
      assert !OccursAt(s, pat, 0);
      forall j: nat ensures !OccursAt(s[1..], pat, j) {
        OccursInSuffix(s, pat, 1, j);
      }
      ReplaceAbsent(s[1..], pat, rep);
    }
  }

  /** `[String]::join` with a one-character separator. */
  function Join(parts: seq<string>, sep: char): string
  {
    if |parts| == 0 then ""
    else if |parts| == 1 then parts[0]
    else parts[0] + [sep] + Join(parts[1..], sep)
  }

  /** `str::split` at a character: the pieces between separators, so an
      empty string splits into one empty piece. */
  function Split(s: string, sep: char): (r: seq<string>)
    ensures |r| > 0
    decreases |s|
  {
    if s == [] then [""]
    else
      var rest := Split(s[1..], sep);
      if s[0] == sep then [""] + rest else [[s[0]] + rest[0]] + rest[1..]
  }

  lemma {:induction false} SplitWithoutSeparator(a: string, sep: char)
    requires sep !in a
    ensures Split(a, sep) == [a]
    decreases |a|
  {
    if a != [] {
      SplitWithoutSeparator(a[1..], sep);
      assert [a[0]] + a[1..] == a;
    }
  }

  lemma {:induction false} SplitFirstPiece(a: string, b: string, sep: char)
    requires sep !in a
    ensures Split(a + [sep] + b, sep) == [a] + Split(b, sep)
    decreases |a|
  {
    if a == [] {
      assert (a + [sep] + b)[1..] == b;
    } else {
      assert (a + [sep] + b)[1..] == a[1..] + [sep] + b;
      SplitFirstPiece(a[1..], b, sep);
      assert [a[0]] + a[1..] == a;
    }
  }

  /** Splitting a joined list at the separator gives the list back, as long
      as the list is not empty and no part contains the separator. */
  lemma {:induction false} SplitJoin(parts: seq<string>, sep: char)
    requires |parts| > 0
    requires forall i :: 0 <= i < |parts| ==> sep !in parts[i]
    ensures Split(Join(parts, sep), sep) == parts
    decreases |parts|
  {
    if |parts| == 1 {
      SplitWithoutSeparator(parts[0], sep);
    } else {
      SplitJoin(parts[1..], sep);
      SplitFirstPiece(parts[0], Join(parts[1..], sep), sep);
      assert [parts[0]] + parts[1..] == parts;
    }
  }
}
