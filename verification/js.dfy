/**
 * The JavaScript built-ins the controllers lean on, with the meaning
 * ECMAScript gives them for the arguments the controllers pass.
 * Strings are sequences of characters. An absent request field is
 * modelled as the empty string, which JavaScript also treats as falsy.
 */
module Js {

  /** A string in a boolean context: only the empty string is falsy. */
  predicate Truthy(s: string) {
    |s| > 0
  }

  /** `a || b` on two strings. */
  function Or(a: string, b: string): string {
    if Truthy(a) then a else b
  }

  /** `s.split(sep)` for a one-character separator and no limit. */
  function Split(s: string, sep: char): (parts: seq<string>)
    ensures |parts| >= 1
    ensures forall i :: 0 <= i < |parts| ==> sep !in parts[i]
  {
    if |s| == 0 then [""]
    else if s[0] == sep then [""] + Split(s[1..], sep)
    else
      var rest := Split(s[1..], sep);
      [[s[0]] + rest[0]] + rest[1..]
  }

  /** `parts.join(sep)`. */
  function Join(parts: seq<string>, sep: char): string
    requires |parts| >= 1
  {
    if |parts| == 1 then parts[0] else parts[0] + [sep] + Join(parts[1..], sep)
  }

  /** The element `xs.pop()` returns on a non-empty array. */
  function Last<T>(xs: seq<T>): T
    requires |xs| >= 1
  {
    xs[|xs| - 1]
  }

  /** `xs.slice(0, n)`. */
  function Take<T>(xs: seq<T>, n: nat): (r: seq<T>)
    ensures |r| <= n && |r| <= |xs|
    ensures r == xs[..|r|]
    ensures |r| == n || |r| == |xs|
  {
    if |xs| <= n then xs else xs[..n]
  }

  /** `xs.filter(keep)`. */
  function Filter<T>(xs: seq<T>, keep: T -> bool): (r: seq<T>)
    ensures |r| <= |xs|
    ensures forall i :: 0 <= i < |r| ==> r[i] in xs && keep(r[i])
  {
    if |xs| == 0 then []
    else if keep(xs[0]) then [xs[0]] + Filter(xs[1..], keep)
    else Filter(xs[1..], keep)
  }

  /** The part of `s` before its first `sep`; all of `s` when there is none. */
  function BeforeFirst(s: string, sep: char): (t: string)
    ensures |t| <= |s| && t == s[..|t|]
    ensures sep !in t
    ensures |t| == |s| || s[|t|] == sep
  {
    if |s| == 0 || s[0] == sep then ""
    else
      var rest := BeforeFirst(s[1..], sep);
      assert s[..|rest| + 1] == [s[0]] + s[1..][..|rest|];
      [s[0]] + rest
  }

  /** The part of `s` after its last `sep`; all of `s` when there is none. */
  function AfterLast(s: string, sep: char): (t: string)
    ensures |t| <= |s| && t == s[|s| - |t|..]
    ensures sep !in t
    ensures |t| == |s| || s[|s| - |t| - 1] == sep
  {
    if |s| == 0 || s[|s| - 1] == sep then ""
    else
      var rest := AfterLast(s[..|s| - 1], sep);
      AfterLastGrows(s, sep, rest);
      rest + [s[|s| - 1]]
  }

  /**
   * A separator-free suffix of `s` minus its last letter, which the
   * separator or the start bounds, grows by that letter into one of `s`.
   */
  lemma AfterLastGrows(s: string, sep: char, rest: string)
    requires |s| > 0 && s[|s| - 1] != sep
    requires |rest| <= |s| - 1 && rest == s[..|s| - 1][|s| - 1 - |rest|..]
    requires sep !in rest
    requires |rest| == |s| - 1 || s[|s| - 2 - |rest|] == sep
    ensures var t := rest + [s[|s| - 1]];
      && t == s[|s| - |t|..] && sep !in t
      && (|t| == |s| || s[|s| - |t| - 1] == sep)
  {
    var t := rest + [s[|s| - 1]];
    forall i | 0 <= i < |t| ensures t[i] == s[|s| - |t| + i] {
      if i < |rest| {
        assert t[i] == rest[i] == s[..|s| - 1][|s| - 1 - |rest| + i];
      }
    }
  }

  /** `a` is `b` with some elements left out, in the order `b` has them. */
  predicate IsSubsequence<T(==)>(a: seq<T>, b: seq<T>)
    decreases |b|
  {
    if |a| == 0 then true
    else if |b| == 0 then false
    else if a[0] == b[0] then IsSubsequence(a[1..], b[1..])
    else IsSubsequence(a, b[1..])
  }

  // ---------------------------------------------------------------------
  // split and join
  // ---------------------------------------------------------------------

  /** Joining the pieces of a split gives back the string. */
  lemma {:induction false} JoinSplit(s: string, sep: char)
    ensures Join(Split(s, sep), sep) == s
    decreases |s|
  {
    if |s| == 0 {
    } else if s[0] == sep {
      JoinSplit(s[1..], sep);
      assert s == [sep] + s[1..];
    } else {
      var rest := Split(s[1..], sep);
      JoinSplit(s[1..], sep);
      if |rest| == 1 {
        assert s == [s[0]] + s[1..];
      } else {
        var parts := [[s[0]] + rest[0]] + rest[1..];
        assert parts[1..] == rest[1..];
        assert s == [s[0]] + s[1..];
      }
    }
  }

  /** Splitting a join of separator-free pieces gives back the pieces. */
  lemma {:induction false} SplitJoin(parts: seq<string>, sep: char)
    requires |parts| >= 1
    requires forall i :: 0 <= i < |parts| ==> sep !in parts[i]
    ensures Split(Join(parts, sep), sep) == parts
    decreases |parts|, |parts[0]|
  {
    var p := parts[0];
    if |parts| == 1 {
      SplitNoSep(p, sep);
    } else if |p| == 0 {
      var tail := Join(parts[1..], sep);
      SplitJoin(parts[1..], sep);
      assert Join(parts, sep) == [sep] + tail;
      assert ([sep] + tail)[1..] == tail;
      assert parts == [""] + parts[1..];
    } else {
      var shorter := [p[1..]] + parts[1..];
      assert forall i :: 0 <= i < |shorter| ==> sep !in shorter[i] by {
        forall i | 0 <= i < |shorter| ensures sep !in shorter[i] {
          if i == 0 { assert sep !in p; } else { assert shorter[i] == parts[i]; }
        }
      }
      SplitJoin(shorter, sep);
      JoinFirstLetter(parts, sep);
      var s := Join(parts, sep);
      assert s[0] == p[0] && p[0] != sep;
      assert s[1..] == Join(shorter, sep);
      assert Split(s, sep) == [[p[0]] + shorter[0]] + shorter[1..];
      assert [p[0]] + p[1..] == p;
      assert shorter[1..] == parts[1..];
    }
  }

  /** The first letter of a join is the first letter of its first piece, when that is not empty. */
  lemma JoinFirstLetter(parts: seq<string>, sep: char)
    requires |parts| >= 1 && |parts[0]| > 0
    ensures Join(parts, sep) == [parts[0][0]] + Join([parts[0][1..]] + parts[1..], sep)
  {
    var shorter := [parts[0][1..]] + parts[1..];
    assert shorter[0] == parts[0][1..] && shorter[1..] == parts[1..];
    assert parts[0] == [parts[0][0]] + parts[0][1..];
  }

  /** A string without the separator splits into itself alone. */
  lemma {:induction false} SplitNoSep(s: string, sep: char)
    requires sep !in s
    ensures Split(s, sep) == [s]
    decreases |s|
  {
    if |s| > 0 {
      assert sep !in s[1..];
      SplitNoSep(s[1..], sep);
      assert [s[0]] + s[1..] == s;
    }
  }

  /** The first piece of `s.split(sep)` is what precedes the first separator. */
  lemma {:induction false} SplitHead(s: string, sep: char)
    ensures Split(s, sep)[0] == BeforeFirst(s, sep)
    decreases |s|
  {
    if |s| > 0 && s[0] != sep {
      SplitHead(s[1..], sep);
    }
  }

  /** Two suffixes of `s` free of `sep` that each start the string or follow a `sep` are the same. */
  lemma AfterLastUnique(s: string, sep: char, t: string)
    requires |t| <= |s| && t == s[|s| - |t|..]
    requires sep !in t
    requires |t| == |s| || s[|s| - |t| - 1] == sep
    ensures t == AfterLast(s, sep)
  {
    var u := AfterLast(s, sep);
  }

  /** `s.split(sep)` has a single piece exactly when the separator does not occur. */
  lemma SplitOnePiece(s: string, sep: char)
    ensures |Split(s, sep)| == 1 <==> sep !in s
  {
    var parts := Split(s, sep);
    JoinSplit(s, sep);
    if sep !in s {
      SplitNoSep(s, sep);
    }
  }

  /** Dropping a first character that is not after the last separator keeps the last piece. */
  lemma AfterLastTail(s: string, sep: char)
    requires |s| > 0 && (s[0] == sep || sep in s[1..])
    ensures AfterLast(s, sep) == AfterLast(s[1..], sep)
  {
    var t := AfterLast(s[1..], sep);
    if |t| == |s| - 1 {
      assert t == s[1..];
    }
    assert s[1..][|s| - 1 - |t|..] == s[|s| - |t|..];
    if |t| < |s| - 1 {
      assert s[1..][|s| - 1 - |t| - 1] == s[|s| - |t| - 1];
    }
    AfterLastUnique(s, sep, t);
  }

  /** Without a separator, both the last piece and the text after the last separator are all of `s`. */
  lemma SplitLastNoSep(s: string, sep: char)
    requires sep !in s
    ensures Last(Split(s, sep)) == s && AfterLast(s, sep) == s
  {
    SplitNoSep(s, sep);
    AfterLastUnique(s, sep, s);
  }

  /** Dropping a leading separator changes neither the last piece nor the text after the last separator. */
  lemma SplitLastDropSep(s: string, sep: char)
    requires |s| > 0 && s[0] == sep
    ensures Last(Split(s, sep)) == Last(Split(s[1..], sep))
    ensures AfterLast(s, sep) == AfterLast(s[1..], sep)
  {
    AfterLastTail(s, sep);
    var rest := Split(s[1..], sep);
    assert Split(s, sep) == [""] + rest;
    assert Last([""] + rest) == Last(rest);
  }

  /**
   * Dropping a first character that has a separator after it changes neither
   * the last piece nor the text after the last separator.
   */
  lemma SplitLastDropLetter(s: string, sep: char)
    requires |s| > 0 && s[0] != sep && sep in s[1..]
    ensures Last(Split(s, sep)) == Last(Split(s[1..], sep))
    ensures AfterLast(s, sep) == AfterLast(s[1..], sep)
  {
    AfterLastTail(s, sep);
    SplitOnePiece(s[1..], sep);
    var rest := Split(s[1..], sep);
    assert |rest| > 1;
    assert Split(s, sep) == [[s[0]] + rest[0]] + rest[1..];
  }

  /** The piece `s.split(sep).pop()` returns is what follows the last separator. */
  lemma {:induction false} SplitLast(s: string, sep: char)
    ensures Last(Split(s, sep)) == AfterLast(s, sep)
    decreases |s|
  {
    if sep !in s {
      SplitLastNoSep(s, sep);
    } else {
      var i :| 0 <= i < |s| && s[i] == sep;
      if i > 0 {
        assert s[1..][i - 1] == sep;
      }
      if s[0] == sep {
        SplitLastDropSep(s, sep);
      } else {
        SplitLastDropLetter(s, sep);
      }
      SplitLast(s[1..], sep);
    }
  }

  // ---------------------------------------------------------------------
  // filter and slice
  // ---------------------------------------------------------------------

  /** Filtering a concatenation filters each part. */
  lemma {:induction false} FilterAppend<T>(a: seq<T>, b: seq<T>, keep: T -> bool)
    ensures Filter(a + b, keep) == Filter(a, keep) + Filter(b, keep)
    decreases |a|
  {
    if |a| > 0 {
      assert (a + b)[1..] == a[1..] + b;
      FilterAppend(a[1..], b, keep);
    } else {
      assert a + b == b;
    }
  }

  /** Dropping the first element of a subsequence keeps it a subsequence. */
  lemma {:induction false} SubsequenceTail<T>(a: seq<T>, b: seq<T>)
    requires |a| > 0 && IsSubsequence(a, b)
    ensures IsSubsequence(a[1..], b)
    decreases |b|, 0
  {
    if a[0] == b[0] {
      SubsequenceWeaken(a[1..], b[1..], b[0]);
    } else {
      SubsequenceTail(a, b[1..]);
      SubsequenceWeaken(a[1..], b[1..], b[0]);
    }
  }

  /** Putting an element in front of the larger sequence keeps a subsequence. */
  lemma {:induction false} SubsequenceWeaken<T>(a: seq<T>, b: seq<T>, x: T)
    requires IsSubsequence(a, b)
    ensures IsSubsequence(a, [x] + b)
    decreases |b|, 1
  {
    if |a| > 0 && a[0] == x {
      assert ([x] + b)[1..] == b;
      SubsequenceTail(a, b);
    } else {
      assert ([x] + b)[1..] == b;
    }
  }

  /** A filter keeps the elements it keeps in their original order. */
  lemma {:induction false} FilterIsSubsequence<T>(xs: seq<T>, keep: T -> bool)
    ensures IsSubsequence(Filter(xs, keep), xs)
    decreases |xs|
  {
    if |xs| > 0 {
      FilterIsSubsequence(xs[1..], keep);
      if !keep(xs[0]) {
        SubsequenceWeaken(Filter(xs[1..], keep), xs[1..], xs[0]);
        assert [xs[0]] + xs[1..] == xs;
      }
    }
  }

  /** A filter keeps every element it accepts. */
  lemma FilterKeepsMember<T>(xs: seq<T>, keep: T -> bool, x: T)
    requires x in xs && keep(x)
    ensures x in Filter(xs, keep)
  {
    FilterCounts(xs, keep, x);
    assert multiset(xs)[x] > 0;
  }

  /**
   * The kept elements up to a kept `xs[j]` begin the filtered list, and
   * `xs[j]` ends them.
   */
  lemma FilterUpTo<T>(xs: seq<T>, keep: T -> bool, j: nat)
    requires j < |xs| && keep(xs[j])
    ensures var p := Filter(xs[..j + 1], keep);
      && 1 <= |p| <= |Filter(xs, keep)|
      && Filter(xs, keep)[..|p|] == p
      && p[|p| - 1] == xs[j]
  {
    var front := xs[..j + 1];
    assert xs == front + xs[j + 1..];
    FilterAppend(front, xs[j + 1..], keep);
    assert front == xs[..j] + [xs[j]];
    FilterAppend(xs[..j], [xs[j]], keep);
  }

  /** A filter that keeps every element returns its input. */
  lemma {:induction false} FilterKeepsAll<T>(xs: seq<T>, keep: T -> bool)
    requires forall i | 0 <= i < |xs| :: keep(xs[i])
    ensures Filter(xs, keep) == xs
    decreases |xs|
  {
    if |xs| > 0 {
      assert forall i | 0 <= i < |xs[1..]| :: xs[1..][i] == xs[i + 1];
      FilterKeepsAll(xs[1..], keep);
      assert [xs[0]] + xs[1..] == xs;
    }
  }

  /** A prefix of a subsequence is a subsequence. */
  lemma {:induction false} SubsequencePrefix<T>(a: seq<T>, b: seq<T>, k: nat)
    requires k <= |a| && IsSubsequence(a, b)
    ensures IsSubsequence(a[..k], b)
    decreases |b|
  {
    if k > 0 {
      if a[0] == b[0] {
        SubsequencePrefix(a[1..], b[1..], k - 1);
        assert a[..k][1..] == a[1..][..k - 1];
      } else {
        SubsequencePrefix(a, b[1..], k);
      }
    }
  }

  /** Every element of a subsequence occurs in the larger sequence. */
  lemma {:induction false} SubsequenceMembers<T>(a: seq<T>, b: seq<T>, x: T)
    requires IsSubsequence(a, b) && x in a
    ensures x in b
    decreases |b|
  {
    if a[0] == b[0] {
      if x != a[0] {
        assert x in a[1..];
        SubsequenceMembers(a[1..], b[1..], x);
      }
    } else {
      SubsequenceMembers(a, b[1..], x);
    }
  }

  /** The number of occurrences of each element, under a filter. */
  lemma {:induction false} FilterCounts<T>(xs: seq<T>, keep: T -> bool, x: T)
    ensures multiset(Filter(xs, keep))[x] == if keep(x) then multiset(xs)[x] else 0
    decreases |xs|
  {
    if |xs| > 0 {
      FilterCounts(xs[1..], keep, x);
      assert xs == [xs[0]] + xs[1..];
    }
  }
}
