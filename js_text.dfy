/**
 * String operations of the JavaScript runtime that the core relies on:
 * the `\s` character class, `trim`, `split` on one character, `join`,
 * `includes` and an ASCII `toLowerCase`.  Strings are sequences of
 * characters; JavaScript's UTF-16 code units are not modelled.
 */
module JsText {

  /** The ECMAScript LineTerminator set: what the regex `.` does not match. */
  predicate IsLineTerminator(c: char) {
    c == '\n' || c == '\r' || c == '\U{2028}' || c == '\U{2029}'
  }

  /** The ECMAScript `\s` class: WhiteSpace (tab, VT, FF, BOM and the Zs
      category) together with the line terminators.  `trim` removes exactly these. */
  predicate IsSpace(c: char) {
    || c == '\t' || c == '\U{000B}' || c == '\U{000C}' || c == ' '
    || c == '\U{00A0}' || c == '\U{1680}' || ('\U{2000}' <= c <= '\U{200A}')
    || c == '\U{202F}' || c == '\U{205F}' || c == '\U{3000}' || c == '\U{FEFF}'
    || IsLineTerminator(c)
  }

  predicate IsAsciiLetter(c: char) { ('a' <= c <= 'z') || ('A' <= c <= 'Z') }
  predicate IsDigit(c: char) { '0' <= c <= '9' }
  predicate IsLower(c: char) { 'a' <= c <= 'z' }
  predicate IsUpper(c: char) { 'A' <= c <= 'Z' }

  predicate AllSpace(s: string) { forall k :: 0 <= k < |s| ==> IsSpace(s[k]) }
  predicate NoSpace(s: string) { forall k :: 0 <= k < |s| ==> !IsSpace(s[k]) }
  predicate NoLineTerminator(s: string) { forall k :: 0 <= k < |s| ==> !IsLineTerminator(s[k]) }
  predicate AllLetters(s: string) { forall k :: 0 <= k < |s| ==> IsAsciiLetter(s[k]) }

  /** A trimmed string neither starts nor ends with `\s`. */
  predicate IsTrimmed(s: string) { s == [] || (!IsSpace(s[0]) && !IsSpace(s[|s| - 1])) }

  /** Every character of `s` in `[lo, hi)` is `\s`. */
  predicate SpaceBetween(s: string, lo: int, hi: int)
    requires 0 <= lo && hi <= |s|
  {
    forall k :: lo <= k < hi ==> IsSpace(s[k])
  }

  /** The first index at or after `i` that is not `\s`, or `|s|`. */
  function SkipSpaceForward(s: string, i: nat): (j: nat)
    requires i <= |s|
    ensures i <= j <= |s| && SpaceBetween(s, i, j) && (j == |s| || !IsSpace(s[j]))
    decreases |s| - i
  {
    if i < |s| && IsSpace(s[i]) then SkipSpaceForward(s, i + 1) else i
  }

  /** The least `e` in `[lo, j]` such that `[e, j)` is all `\s`. */
  function SkipSpaceBackward(s: string, lo: nat, j: nat): (e: nat)
    requires lo <= j <= |s|
    ensures lo <= e <= j && SpaceBetween(s, e, j) && (e == lo || !IsSpace(s[e - 1]))
    decreases j
  {
    if lo < j && IsSpace(s[j - 1]) then SkipSpaceBackward(s, lo, j - 1) else j
  }

  /** `String.prototype.trim`: what is left once the leading and the
      trailing runs of `\s` are removed. */
  function Trim(s: string): (r: string)
    ensures IsTrimmed(r)
    ensures exists i :: 0 <= i <= |s| - |r| && r == s[i..i + |r|]
                     && SpaceBetween(s, 0, i) && SpaceBetween(s, i + |r|, |s|)
  {
    var i := SkipSpaceForward(s, 0);
    var e := SkipSpaceBackward(s, i, |s|);
    assert e > i ==> !IsSpace(s[i]);
    s[i..e]
  }

  lemma {:induction false} SkipForwardAt(s: string, i: nat, j: nat)
    requires i <= j <= |s| && SpaceBetween(s, i, j) && (j == |s| || !IsSpace(s[j]))
    ensures SkipSpaceForward(s, i) == j
    decreases j - i
  {
    if i < j { SkipForwardAt(s, i + 1, j); }
  }

  lemma {:induction false} SkipBackwardAt(s: string, lo: nat, e: nat, j: nat)
    requires lo <= e <= j <= |s| && SpaceBetween(s, e, j) && (e == lo || !IsSpace(s[e - 1]))
    ensures SkipSpaceBackward(s, lo, j) == e
    decreases j
  {
    if e < j { SkipBackwardAt(s, lo, e, j - 1); }
  }

  /** `trim` removes exactly the surrounding `\s`: a trimmed infix with only
      `\s` around it is the result. */
  lemma TrimUnique(s: string, i: nat, j: nat)
    requires i <= j <= |s| && SpaceBetween(s, 0, i) && SpaceBetween(s, j, |s|)
    requires IsTrimmed(s[i..j])
    ensures Trim(s) == s[i..j]
  {
    if i < j {
      assert s[i..j][0] == s[i] && s[i..j][j - i - 1] == s[j - 1];
      SkipForwardAt(s, 0, i);
      SkipBackwardAt(s, i, j, |s|);
    } else {
      SkipForwardAt(s, 0, |s|);
      SkipBackwardAt(s, |s|, |s|, |s|);
    }
  }

  lemma TrimOfTrimmed(s: string)
    requires IsTrimmed(s)
    ensures Trim(s) == s
  {
    TrimUnique(s, 0, |s|);
  }

  /** Leading `\s` in front of a trimmed string is all that `trim` removes. */
  lemma TrimAfterSpace(w: string, p: string)
    requires AllSpace(w) && IsTrimmed(p)
    ensures Trim(w + p) == p
  {
    var s := w + p;
    assert s[|w|..|s|] == p;
    TrimUnique(s, |w|, |s|);
  }

  lemma TrimIdempotent(s: string)
    ensures Trim(Trim(s)) == Trim(s)
  {
    TrimOfTrimmed(Trim(s));
  }

  /** Occurrences of `c` in `s`. */
  function Count(s: string, c: char): nat
  {
    if s == [] then 0 else (if s[0] == c then 1 else 0) + Count(s[1..], c)
  }

  lemma {:induction false} CountAppend(a: string, b: string, c: char)
    ensures Count(a + b, c) == Count(a, c) + Count(b, c)
  {
    if a != [] {
      assert (a + b)[1..] == a[1..] + b;
      CountAppend(a[1..], b, c);
    } else {
      assert a + b == b;
    }
  }

  lemma {:induction false} CountZero(s: string, c: char)
    ensures Count(s, c) == 0 <==> c !in s
  {
    if s != [] {
      CountZero(s[1..], c);
      assert c in s <==> s[0] == c || c in s[1..];
    }
  }

  /** Index of the first `c` in `s`. */
  function IndexOf(s: string, c: char): (i: nat)
    requires c in s
    ensures i < |s| && s[i] == c && c !in s[..i]
  {
    if s[0] == c then 0 else 1 + IndexOf(s[1..], c)
  }

  lemma {:induction false} IndexOfAt(s: string, c: char, p: nat)
    requires p < |s| && s[p] == c && c !in s[..p]
    ensures IndexOf(s, c) == p
  {
    if p > 0 {
      assert s[0] == s[..p][0];
      assert s[1..][..p - 1] == s[1..p];
      assert c !in s[1..][..p - 1] by { assert forall x :: x in s[1..p] ==> x in s[..p]; }
      IndexOfAt(s[1..], c, p - 1);
    }
  }

  /** `s.split(c)` for a one-character separator: the pieces between the
      occurrences of `c`, at least one piece, the empty string giving `[""]`. */
  function Split(s: string, c: char): (r: seq<string>)
    ensures |r| >= 1
    ensures forall k :: 0 <= k < |r| ==> c !in r[k]
    decreases |s|
  {
    if c !in s then [s]
    else
      var i := IndexOf(s, c);
      [s[..i]] + Split(s[i + 1..], c)
  }

  /** `parts.join(sep)`. */
  function Join(parts: seq<string>, sep: string): string
  {
    if |parts| == 0 then ""
    else if |parts| == 1 then parts[0]
    else parts[0] + sep + Join(parts[1..], sep)
  }

  /** One piece per separator plus one. */
  lemma {:induction false} SplitCount(s: string, c: char)
    ensures |Split(s, c)| == Count(s, c) + 1
    decreases |s|
  {
    if c !in s {
      CountZero(s, c);
    } else {
      var i := IndexOf(s, c);
      assert s == s[..i] + [c] + s[i + 1..];
      CountAppend(s[..i] + [c], s[i + 1..], c);
      CountAppend(s[..i], [c], c);
      CountZero(s[..i], c);
      SplitCount(s[i + 1..], c);
    }
  }

  /** Joining the pieces with the separator gives the string back. */
  lemma {:induction false} JoinSplit(s: string, c: char)
    ensures Join(Split(s, c), [c]) == s
    decreases |s|
  {
    if c in s {
      var i := IndexOf(s, c);
      var tail := s[i + 1..];
      var rest := Split(tail, c);
      assert Split(s, c) == [s[..i]] + rest;
      JoinCons(s[..i], rest, [c]);
      JoinSplit(tail, c);
      assert s == s[..i] + [c] + tail;
    }
  }

  /** A piece before at least one other is followed by the separator. */
  lemma JoinCons(p: string, rest: seq<string>, sep: string)
    requires |rest| >= 1
    ensures Join([p] + rest, sep) == p + sep + Join(rest, sep)
  {
    assert ([p] + rest)[1..] == rest;
  }

  /** Splitting a join of separator-free pieces gives the pieces back. */
  lemma {:induction false} SplitJoin(parts: seq<string>, c: char)
    requires |parts| >= 1
    requires forall k :: 0 <= k < |parts| ==> c !in parts[k]
    ensures Split(Join(parts, [c]), c) == parts
  {
    if |parts| > 1 {
      var rest := Join(parts[1..], [c]);
      var s := parts[0] + [c] + rest;
      assert s[|parts[0]|] == c;
      assert s[..|parts[0]|] == parts[0];
      IndexOfAt(s, c, |parts[0]|);
      assert s[|parts[0]| + 1..] == rest;
      SplitJoin(parts[1..], c);
    }
  }

  /** `sub` occurs in `s` at index `i`. */
  predicate OccursAt(s: string, sub: string, i: int) {
    0 <= i && i + |sub| <= |s| && s[i..i + |sub|] == sub
  }

  /** `s.includes(sub)`. */
  predicate Contains(s: string, sub: string) {
    exists i :: 0 <= i <= |s| && OccursAt(s, sub, i)
  }

  /** A string contains every infix of each of its infixes. */
  lemma ContainsTransitive(s: string, mid: string, sub: string)
    requires Contains(s, mid) && Contains(mid, sub)
    ensures Contains(s, sub)
  {
    var i :| 0 <= i <= |s| && OccursAt(s, mid, i);
    var j :| 0 <= j <= |mid| && OccursAt(mid, sub, j);
    forall k | 0 <= k < |sub| ensures s[i + j + k] == sub[k] {
      assert sub[k] == mid[j..j + |sub|][k] == mid[j + k];
      assert mid[j + k] == s[i..i + |mid|][j + k];
    }
    assert s[i + j..i + j + |sub|] == sub;
    assert OccursAt(s, sub, i + j);
  }

  function LowerChar(c: char): (d: char)
    ensures IsUpper(c) ==> IsLower(d) && d as int == c as int + 32
    ensures !IsUpper(c) ==> d == c
  {
    if IsUpper(c) then (c as int + 32) as char else c
  }

  /** `toLowerCase` restricted to the ASCII letters. */
  function ToLower(s: string): (r: string)
    ensures |r| == |s|
    ensures forall k :: 0 <= k < |s| ==> r[k] == LowerChar(s[k])
  {
    seq(|s|, k requires 0 <= k < |s| => LowerChar(s[k]))
  }

  /** The decimal form of a natural number, as an array index becomes a key. */
  function NatToString(n: nat): (r: string)
    ensures |r| > 0 && forall k :: 0 <= k < |r| ==> IsDigit(r[k])
    decreases n
  {
    var d := ['0', '1', '2', '3', '4', '5', '6', '7', '8', '9'];
    if n < 10 then [d[n]] else NatToString(n / 10) + [d[n % 10]]
  }
}
