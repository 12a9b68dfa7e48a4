/**
 * The parts of Go's `strings` package the bundle store uses, on `seq<char>`,
 * with '/' as the only path separator, plus Go's `<` on strings.
 */
module Strings {

  /** Index of the first `c` in `s`, or `|s|` when `s` has none. */
  function IndexOf(s: string, c: char): (i: nat)
    ensures i <= |s|
    ensures i < |s| ==> s[i] == c
    ensures forall k :: 0 <= k < i ==> s[k] != c
  {
    if s == [] then 0
    else if s[0] == c then 0
    else 1 + IndexOf(s[1..], c)
  }

  /** Index of the last `c` in `s`, or -1 when `s` has none. */
  function LastIndexOf(s: string, c: char): (i: int)
    ensures -1 <= i < |s|
    ensures i >= 0 ==> s[i] == c
    ensures forall k :: i < k < |s| ==> s[k] != c
  {
    if s == [] then -1
    else if s[|s| - 1] == c then |s| - 1
    else LastIndexOf(s[..|s| - 1], c)
  }

  /** strings.Replace(s, from, to, 1) for one-character `from` and `to`. */
  function ReplaceFirst(s: string, from: char, to: char): (r: string)
    ensures |r| == |s|
    ensures forall k :: 0 <= k < |s| ==> r[k] == if k == IndexOf(s, from) then to else s[k]
  {
    if s == [] then []
    else if s[0] == from then [to] + s[1..]
    else [s[0]] + ReplaceFirst(s[1..], from, to)
  }

  /** The inverse of `Join`: strings.Split(s, sep) for a one-character separator. */
  function Split(s: string, sep: char): (parts: seq<string>)
    ensures |parts| >= 1
    ensures forall i :: 0 <= i < |parts| ==> sep !in parts[i]
    ensures Join(parts, sep) == s
    decreases |s|
  {
    var i := IndexOf(s, sep);
    if i == |s| then [s]
    else
      var rest := Split(s[i + 1..], sep);
      assert s == s[..i] + [sep] + s[i + 1..];
      [s[..i]] + rest
  }

  /** strings.Join(parts, sep) for a non-empty list. */
  function Join(parts: seq<string>, sep: char): string
    requires |parts| >= 1
  {
    if |parts| == 1 then parts[0] else parts[0] + [sep] + Join(parts[1..], sep)
  }

  predicate HasPrefix(s: string, p: string)
  {
    |p| <= |s| && s[..|p|] == p
  }

  predicate HasSuffix(s: string, x: string)
  {
    |x| <= |s| && s[|s| - |x|..] == x
  }

  /** strings.Contains: `sub` occurs somewhere in `s`. */
  predicate Contains(s: string, sub: string): (b: bool)
    ensures b <==> exists i :: 0 <= i <= |s| && HasPrefix(s[i..], sub)
    decreases |s|
  {
    if HasPrefix(s, sub) then
      assert s[0..] == s;
      true
    else if s == [] then
      false
    else
      var b := Contains(s[1..], sub);
      assert forall i :: 1 <= i <= |s| ==> s[1..][i - 1..] == s[i..];
      b
  }

  /** strings.TrimPrefix: a leading `p` is removed, anything else is left alone. */
  function TrimPrefix(s: string, p: string): (r: string)
    ensures HasPrefix(s, p) ==> p + r == s
    ensures !HasPrefix(s, p) ==> r == s
  {
    if HasPrefix(s, p) then
      assert s == s[..|p|] + s[|p|..];
      s[|p|..]
    else s
  }

  /** strings.TrimSuffix: a trailing `x` is removed, anything else is left alone. */
  function TrimSuffix(s: string, x: string): (r: string)
    ensures HasSuffix(s, x) ==> r + x == s
    ensures !HasSuffix(s, x) ==> r == s
  {
    if HasSuffix(s, x) then
      assert s == s[..|s| - |x|] + s[|s| - |x|..];
      s[..|s| - |x|]
    else s
  }

  /**
   * Go's `a < b` on strings. Go compares UTF-8 bytes; on valid UTF-8 that
   * order coincides with the order of the code points compared here.
   */
  predicate LexLess(a: string, b: string): (less: bool)
    ensures less <==> exists k :: LessAt(a, b, k)
    decreases |a|
  {
    if b == [] then
      false
    else if a == [] then
      assert LessAt(a, b, 0);
      true
    else if a[0] != b[0] then
      assert a[0] < b[0] ==> LessAt(a, b, 0);
      a[0] < b[0]
    else
      var less := LexLess(a[1..], b[1..]);
      LessAtShift(a, b);
      less
  }

  /** `a` and `b` agree on their first `k` characters, and then `a` ends or has the smaller character. */
  predicate LessAt(a: string, b: string, k: int)
  {
    0 <= k <= |a| && k < |b| && a[..k] == b[..k] && (k == |a| || a[k] < b[k])
  }

  /** With equal first characters, the place where `a` drops below `b` moves by one. */
  lemma LessAtShift(a: string, b: string)
    requires a != [] && b != [] && a[0] == b[0]
    ensures (exists k :: LessAt(a, b, k)) <==> exists k :: LessAt(a[1..], b[1..], k)
  {
    if k :| LessAt(a, b, k) {
      assert k > 0;
      assert a[1..][..k - 1] == a[1..k] && b[1..][..k - 1] == b[1..k];
      assert LessAt(a[1..], b[1..], k - 1);
    }
    if k :| LessAt(a[1..], b[1..], k) {
      assert a[..k + 1] == [a[0]] + a[1..][..k];
      assert b[..k + 1] == [b[0]] + b[1..][..k];
      assert LessAt(a, b, k + 1);
    }
  }

  // ---------------------------------------------------------------------------
  // Searching

  /** The first occurrence is where the character is and nowhere before. */
  lemma {:induction false} IndexOfAt(s: string, c: char, i: nat)
    requires i < |s| && s[i] == c
    requires forall k :: 0 <= k < i ==> s[k] != c
    ensures IndexOf(s, c) == i
  {
    if i > 0 {
      IndexOfAt(s[1..], c, i - 1);
    }
  }

  /** A character that does not occur is found at the end. */
  lemma {:induction false} IndexOfAbsent(s: string, c: char)
    requires c !in s
    ensures IndexOf(s, c) == |s|
  {
    if s != [] {
      IndexOfAbsent(s[1..], c);
    }
  }

  /** The last occurrence is where the character is and nowhere after. */
  lemma {:induction false} LastIndexOfAt(s: string, c: char, i: nat)
    requires i < |s| && s[i] == c
    requires forall k :: i < k < |s| ==> s[k] != c
    ensures LastIndexOf(s, c) == i
    decreases |s|
  {
    if i < |s| - 1 {
      LastIndexOfAt(s[..|s| - 1], c, i);
    }
  }

  // ---------------------------------------------------------------------------
  // Splitting and joining

  /** A string without the separator splits into itself. */
  lemma SplitNoSep(s: string, sep: char)
    requires sep !in s
    ensures Split(s, sep) == [s]
  {
    IndexOfAbsent(s, sep);
  }

  /** A string with the separator splits at its first one. */
  lemma SplitCons(s: string, sep: char)
    requires IndexOf(s, sep) < |s|
    ensures Split(s, sep) == [s[..IndexOf(s, sep)]] + Split(s[IndexOf(s, sep) + 1..], sep)
  {
  }

  /** The first separator of `a + [sep] + b` is the first of `a`, if `a` has one, else the added one. */
  lemma IndexOfAppend(a: string, b: string, sep: char)
    ensures IndexOf(a + [sep] + b, sep) == IndexOf(a, sep)
  {
    var s := a + [sep] + b;
    var i := IndexOf(a, sep);
    forall k | 0 <= k < i
      ensures s[k] != sep
    {
      assert s[k] == a[k];
    }
    if i < |a| {
      assert s[i] == a[i];
    }
    IndexOfAt(s, sep, i);
  }

  /** Slicing `a + [x] + b` at or before the end of `a`. */
  lemma SliceAppend<T>(a: seq<T>, x: T, b: seq<T>, j: nat)
    requires j <= |a|
    ensures (a + [x] + b)[..j] == a[..j]
    ensures (a + [x] + b)[j..] == a[j..] + [x] + b
    ensures j == |a| ==> (a + [x] + b)[..j] == a && (a + [x] + b)[j + 1..] == b
  {
  }

  lemma ConsAssoc<T>(x: T, p: seq<T>, q: seq<T>)
    ensures [x] + (p + q) == ([x] + p) + q
  {
  }

  /** Splitting distributes over a separator placed between two strings. */
  lemma {:induction false} SplitAppend(a: string, b: string, sep: char)
    ensures Split(a + [sep] + b, sep) == Split(a, sep) + Split(b, sep)
    decreases |a|
  {
    var s := a + [sep] + b;
    var i := IndexOf(a, sep);
    IndexOfAppend(a, b, sep);
    SplitCons(s, sep);
    SliceAppend(a, sep, b, i);
    if i == |a| {
      SplitNoSep(a, sep);
    } else {
      SliceAppend(a, sep, b, i + 1);
      SplitAppend(a[i + 1..], b, sep);
      SplitCons(a, sep);
      ConsAssoc(a[..i], Split(a[i + 1..], sep), Split(b, sep));
    }
  }

  /** Joining pieces that hold no separator and splitting again gives the pieces back. */
  lemma {:induction false} SplitJoin(parts: seq<string>, sep: char)
    requires |parts| >= 1
    requires forall i :: 0 <= i < |parts| ==> sep !in parts[i]
    ensures Split(Join(parts, sep), sep) == parts
    decreases |parts|
  {
    if |parts| == 1 {
      SplitNoSep(parts[0], sep);
    } else {
      SplitJoin(parts[1..], sep);
      SplitAppend(parts[0], Join(parts[1..], sep), sep);
      SplitNoSep(parts[0], sep);
      assert parts == [parts[0]] + parts[1..];
    }
  }

  /** Gluing the first two pieces with the separator does not change the join. */
  lemma JoinFuse(a: string, b: string, rest: seq<string>, sep: char)
    ensures Join([a + [sep] + b] + rest, sep) == Join([a, b] + rest, sep)
  {
    var l := [a + [sep] + b] + rest;
    var r := [a, b] + rest;
    assert l[1..] == rest;
    assert r[1..] == [b] + rest;
    assert ([b] + rest)[1..] == rest;
  }

  // ---------------------------------------------------------------------------
  // Replacing, trimming and containment

  /** Replacing the first ':' by '_' and then the first '_' by ':' restores a string without '_'. */
  lemma ReplaceFirstUndone(s: string, from: char, to: char)
    requires from != to
    requires to !in s
    ensures ReplaceFirst(ReplaceFirst(s, from, to), to, from) == s
  {
    var once := ReplaceFirst(s, from, to);
    var i := IndexOf(s, from);
    if i < |s| {
      IndexOfAt(once, to, i);
    } else {
      IndexOfAbsent(once, to);
    }
    var twice := ReplaceFirst(once, to, from);
    assert forall k :: 0 <= k < |s| ==> twice[k] == s[k];
  }

  /** A string that ends with `x` contains `x`. */
  lemma {:induction false} SuffixContained(s: string, x: string)
    requires HasSuffix(s, x)
    ensures Contains(s, x)
    decreases |s|
  {
    if !HasPrefix(s, x) {
      assert |x| < |s|;
      assert s[1..][|s[1..]| - |x|..] == s[|s| - |x|..];
      SuffixContained(s[1..], x);
    }
  }

  lemma TrimPrefixOf(p: string, s: string)
    ensures TrimPrefix(p + s, p) == s
  {
    assert (p + s)[..|p|] == p;
  }

  lemma TrimSuffixOf(s: string, x: string)
    ensures TrimSuffix(s + x, x) == s
  {
    assert (s + x)[|s + x| - |x|..] == x;
  }

  // ---------------------------------------------------------------------------
  // Go's string order

  /** `<` on strings is asymmetric. */
  lemma {:induction false} LexLessAsymmetric(a: string, b: string)
    requires LexLess(a, b)
    ensures !LexLess(b, a)
    decreases |a|
  {
    if a != [] && b != [] && a[0] == b[0] {
      LexLessAsymmetric(a[1..], b[1..]);
    }
  }

  /** "Not greater than" on strings is transitive. */
  lemma {:induction false} LexLeqTransitive(a: string, b: string, c: string)
    requires !LexLess(b, a) && !LexLess(c, b)
    ensures !LexLess(c, a)
    decreases |a|
  {
    if a != [] && b != [] && c != [] && a[0] == b[0] && b[0] == c[0] {
      LexLeqTransitive(a[1..], b[1..], c[1..]);
    }
  }

  /** Two different strings are ordered one way or the other. */
  lemma {:induction false} LexLessTotal(a: string, b: string)
    requires a != b
    ensures LexLess(a, b) || LexLess(b, a)
    decreases |a|
  {
    if a != [] && b != [] && a[0] == b[0] {
      assert a == [a[0]] + a[1..] && b == [b[0]] + b[1..];
      LexLessTotal(a[1..], b[1..]);
    }
  }
}
