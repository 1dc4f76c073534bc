/** The Python `str` operations the two scripts use, over `seq<char>`. */
module Strings {

  /** Python's `str.isspace` for one character: the characters `str.strip()` removes. */
  predicate IsSpace(c: char) {
    var n := c as int;
    (0x09 <= n <= 0x0D) || (0x1C <= n <= 0x20) || n == 0x85 || n == 0xA0 || n == 0x1680 ||
    (0x2000 <= n <= 0x200A) || n == 0x2028 || n == 0x2029 || n == 0x202F || n == 0x205F || n == 0x3000
  }

  /** The number of whitespace characters `s` starts with. */
  function LeadingSpaces(s: string): (n: nat)
    ensures n <= |s|
    ensures forall k :: 0 <= k < n ==> IsSpace(s[k])
    ensures n == |s| || !IsSpace(s[n])
  {
    if s == [] || !IsSpace(s[0]) then 0 else 1 + LeadingSpaces(s[1..])
  }

  /** The number of whitespace characters `s` ends with. */
  function TrailingSpaces(s: string): (n: nat)
    ensures n <= |s|
    ensures forall k :: |s| - n <= k < |s| ==> IsSpace(s[k])
    ensures n == |s| || !IsSpace(s[|s| - 1 - n])
  {
    if s == [] || !IsSpace(s[|s| - 1]) then 0 else 1 + TrailingSpaces(s[..|s| - 1])
  }

  /** `s.strip()`: the stretch of `s` from its first to its last non-whitespace character. */
  function Strip(s: string): (r: string)
    ensures |r| <= |s|
    ensures r == [] || (!IsSpace(r[0]) && !IsSpace(r[|r| - 1]))
  {
    var t := s[LeadingSpaces(s)..];
    t[..|t| - TrailingSpaces(t)]
  }

  /** What `Strip` keeps is a stretch of `s` that contains every non-whitespace character of `s`,
      so only whitespace is removed. */
  lemma {:induction false} StripKeepsText(s: string)
    ensures var a, r := LeadingSpaces(s), Strip(s);
      && a + |r| <= |s| && r == s[a..a + |r|]
      && forall k :: 0 <= k < |s| && !IsSpace(s[k]) ==> a <= k < a + |r|
  {
    var a := LeadingSpaces(s);
    var t := s[a..];
    var n := TrailingSpaces(t);
    var r := t[..|t| - n];
    assert r == Strip(s);
    assert r == s[a..a + |r|];
    forall k | a + |r| <= k < |s|
      ensures IsSpace(s[k])
    {
      assert s[k] == t[k - a];
    }
  }

  /** `pat` occurs in `s` starting at index `i`. */
  predicate OccursAt(s: string, pat: string, i: nat) {
    i + |pat| <= |s| && s[i..i + |pat|] == pat
  }

  /** Python's `pat in s` for strings: `pat` occurs somewhere in `s`. */
  function Contains(s: string, pat: string): (b: bool)
    ensures b <==> exists i: nat :: OccursAt(s, pat, i)
  {
    if |s| < |pat| then false
    else if s[..|pat|] == pat then assert OccursAt(s, pat, 0); true
    else
      var b := Contains(s[1..], pat);
      assert forall i: nat :: OccursAt(s[1..], pat, i) <==> OccursAt(s, pat, i + 1);
      assert !OccursAt(s, pat, 0);
      assert (exists i: nat :: OccursAt(s, pat, i)) ==> b by {
        if exists i: nat :: OccursAt(s, pat, i) {
          var i: nat :| OccursAt(s, pat, i);
          assert i > 0 && OccursAt(s[1..], pat, i - 1);
        }
      }
      b
  }

  /** The index of the first `c` in `s`, or `|s|` when there is none. */
  function FirstIndex(s: string, c: char): (k: nat)
    ensures k <= |s|
    ensures forall i :: 0 <= i < k ==> s[i] != c
    ensures k < |s| ==> s[k] == c
  {
    if s == [] || s[0] == c then 0 else 1 + FirstIndex(s[1..], c)
  }

  /** `s.split(sep)` for a one-character separator: the pieces between separators. */
  function Split(s: string, sep: char): (parts: seq<string>)
    ensures |parts| > 0
    ensures forall k :: 0 <= k < |parts| ==> sep !in parts[k]
    decreases |s|
  {
    var k := FirstIndex(s, sep);
    if k == |s| then [s] else [s[..k]] + Split(s[k + 1..], sep)
  }

  /** `sep.join(parts)`, the inverse of `Split`. */
  function Join(parts: seq<string>, sep: char): string {
    if |parts| == 0 then []
    else if |parts| == 1 then parts[0]
    else parts[0] + [sep] + Join(parts[1..], sep)
  }

  /** Splitting and joining again gives back the string. */
  lemma {:induction false} JoinSplit(s: string, sep: char)
    ensures Join(Split(s, sep), sep) == s
    decreases |s|
  {
    var k := FirstIndex(s, sep);
    if k < |s| {
      JoinSplit(s[k + 1..], sep);
      assert s == s[..k] + [sep] + s[k + 1..];
    }
  }

  /** Joining pieces that hold no separator and splitting again gives back the pieces. */
  lemma {:induction false} SplitJoin(parts: seq<string>, sep: char)
    requires |parts| > 0
    requires forall k :: 0 <= k < |parts| ==> sep !in parts[k]
    ensures Split(Join(parts, sep), sep) == parts
  {
    var s := Join(parts, sep);
    if |parts| == 1 {
      assert FirstIndex(s, sep) == |s|;
    } else {
      var p, rest := parts[0], Join(parts[1..], sep);
      assert s == p + [sep] + rest;
      FirstIndexAt(p, rest, sep);
      SplitJoin(parts[1..], sep);
      assert s[..|p|] == p && s[|p| + 1..] == rest;
    }
  }

  /** The first separator of `p + [sep] + rest` is the one after `p` when `p` holds none. */
  lemma {:induction false} FirstIndexAt(p: string, rest: string, sep: char)
    requires sep !in p
    ensures FirstIndex(p + [sep] + rest, sep) == |p|
  {
    if p != [] {
      assert (p + [sep] + rest)[1..] == p[1..] + [sep] + rest;
      FirstIndexAt(p[1..], rest, sep);
    }
  }

  /** The second piece of `s.split(sep)` exists exactly when `sep` occurs in `s`, and it is the
      text after the first `sep` up to the next one or to the end. */
  lemma {:induction false} SecondPiece(s: string, sep: char)
    ensures |Split(s, sep)| >= 2 <==> sep in s
    ensures sep in s ==>
      var i := FirstIndex(s, sep) + 1;
      i <= |s| && Split(s, sep)[1] == s[i..i + FirstIndex(s[i..], sep)]
  {
    var k := FirstIndex(s, sep);
    if k < |s| {
      SecondPieceText(s, sep);
    } else {
      assert Split(s, sep) == [s];
    }
  }

  lemma {:induction false} SecondPieceText(s: string, sep: char)
    requires FirstIndex(s, sep) < |s|
    ensures var i := FirstIndex(s, sep) + 1;
      |Split(s, sep)| >= 2 && Split(s, sep)[1] == s[i..i + FirstIndex(s[i..], sep)]
  {
    var k := FirstIndex(s, sep);
    var rest := s[k + 1..];
    var j := FirstIndex(rest, sep);
    var tail := Split(rest, sep);
    assert Split(s, sep) == [s[..k]] + tail;
    FirstPiece(rest, sep);
    assert tail[0] == rest[..j] == s[k + 1..k + 1 + j];
  }

  /** The first piece of `s.split(sep)` is the text before the first `sep`. */
  lemma {:induction false} FirstPiece(s: string, sep: char)
    ensures Split(s, sep)[0] == s[..FirstIndex(s, sep)]
  {
    if FirstIndex(s, sep) == |s| {
      assert s[..|s|] == s;
    }
  }

  /** `s.replace([c], "")`: `s` with every `c` deleted. */
  function RemoveAll(s: string, c: char): (r: string)
    ensures c !in r
    ensures forall x :: x != c ==> multiset(r)[x] == multiset(s)[x]
  {
    if s == [] then []
    else
      var rest := RemoveAll(s[1..], c);
      assert s == [s[0]] + s[1..];
      assert multiset(s) == multiset([s[0]]) + multiset(s[1..]);
      if s[0] == c then rest else [s[0]] + rest
  }

  /** Deleting distributes over concatenation; with `RemoveAllNothing` this fixes the order of what is kept. */
  lemma {:induction false} RemoveAllAppend(a: string, b: string, c: char)
    ensures RemoveAll(a + b, c) == RemoveAll(a, c) + RemoveAll(b, c)
  {
    if a != [] {
      assert (a + b)[1..] == a[1..] + b;
      RemoveAllAppend(a[1..], b, c);
    } else {
      assert a + b == b;
    }
  }

  /** A string without `c` is left alone. */
  lemma {:induction false} RemoveAllNothing(s: string, c: char)
    requires c !in s
    ensures RemoveAll(s, c) == s
  {
    if s != [] {
      assert c !in s[1..];
      RemoveAllNothing(s[1..], c);
    }
  }

  /** `s.endswith(suffix)`. */
  predicate EndsWith(s: string, suffix: string) {
    |suffix| <= |s| && s[|s| - |suffix|..] == suffix
  }

  /** Lower-casing of one character, for the ASCII letters. */
  function LowerChar(c: char): char {
    if 'A' <= c <= 'Z' then (c as int + 32) as char else c
  }

  /** `s.lower()` restricted to ASCII letters. */
  function Lower(s: string): (r: string)
    ensures |r| == |s|
    ensures forall k :: 0 <= k < |s| ==> r[k] == LowerChar(s[k])
  {
    seq(|s|, k requires 0 <= k < |s| => LowerChar(s[k]))
  }

  /** Lower-casing commutes with taking a suffix. */
  lemma {:induction false} LowerSuffix(s: string, n: nat)
    requires n <= |s|
    ensures Lower(s)[|s| - n..] == Lower(s[|s| - n..])
  {
    var t := s[|s| - n..];
    assert forall k :: 0 <= k < n ==> t[k] == s[|s| - n + k];
  }

  /** Lower-casing is idempotent. */
  lemma {:induction false} LowerIdempotent(s: string)
    ensures Lower(Lower(s)) == Lower(s)
  {
  }
}
