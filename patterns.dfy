/**
 * Regular expressions that several source files share, written as
 * predicates over strings.  Each predicate follows the structure of its
 * expression; the lemmas give the plain-words reading of each one.
 */
module Patterns {
  import opened JsText

  predicate NotSpaceOrAt(c: char) { !IsSpace(c) && c != '@' }

  /** The positions `i` of the `@` and `j` of the `.` split `s` as the
      e-mail expression does: every other character is outside `[\s@]`. */
  predicate EmailSplitAt(s: string, i: int, j: int)
    requires 0 <= i < |s| && 0 <= j < |s|
  {
    s[i] == '@' && s[j] == '.' && forall k :: 0 <= k < |s| && k != i ==> NotSpaceOrAt(s[k])
  }

  /** `/^[^\s@]+@[^\s@]+\.[^\s@]+$/`: a non-empty local part, `@`, a
      non-empty label, `.`, a non-empty remainder, none of them holding
      `\s` or `@`. */
  predicate EmailShape(s: string) {
    exists i, j :: 0 < i < |s| && i + 1 < j < |s| - 1 && EmailSplitAt(s, i, j)
  }

  /** The domain part has a `.` that is neither its first nor its last character. */
  predicate DotInside(d: string) {
    exists j :: 0 < j < |d| - 1 && d[j] == '.'
  }

  lemma CountSingle(s: string, i: nat, c: char)
    requires i < |s| && s[i] == c
    ensures Count(s, c) == Count(s[..i], c) + 1 + Count(s[i + 1..], c)
  {
    assert s == s[..i] + [c] + s[i + 1..];
    CountAppend(s[..i] + [c], s[i + 1..], c);
    CountAppend(s[..i], [c], c);
  }

  /** The e-mail expression accepts exactly the strings with one `@`, no
      `\s`, a non-empty part before the `@` and a `.` strictly inside the
      part after it. */
  lemma EmailShapeIff(s: string)
    ensures EmailShape(s) <==>
      && Count(s, '@') == 1
      && NoSpace(s)
      && '@' in s
      && IndexOf(s, '@') > 0
      && DotInside(s[IndexOf(s, '@') + 1..])
  {
    if EmailShape(s) {
      var i, j :| 0 < i < |s| && i + 1 < j < |s| - 1 && EmailSplitAt(s, i, j);
      assert forall k :: 0 <= k < i ==> s[..i][k] == s[k];
      assert '@' !in s[..i];
      var d := s[i + 1..];
      forall k | i < k < |s| ensures s[k] != '@' { assert k != i; }
      assert '@' !in d by {
        forall k | 0 <= k < |d| ensures d[k] != '@' { assert d[k] == s[i + 1 + k]; }
      }
      CountZero(s[..i], '@');
      CountZero(s[i + 1..], '@');
      CountSingle(s, i, '@');
      IndexOfAt(s, '@', i);
      assert s[i + 1..][j - i - 1] == '.';
    }
    if Count(s, '@') == 1 && NoSpace(s) && '@' in s && IndexOf(s, '@') > 0 && DotInside(s[IndexOf(s, '@') + 1..]) {
      var i := IndexOf(s, '@');
      var d := s[i + 1..];
      var j' :| 0 < j' < |d| - 1 && d[j'] == '.';
      CountSingle(s, i, '@');
      CountZero(s[..i], '@');
      CountZero(d, '@');
      forall k | 0 <= k < |s| && k != i ensures NotSpaceOrAt(s[k]) {
        if k < i { assert s[k] == s[..i][k]; } else { assert s[k] == d[k - i - 1]; }
      }
      assert EmailSplitAt(s, i, i + 1 + j');
    }
  }

  /** `[a-zA-Z]+=.+` filling all of `t`: letters, `=`, then at least one
      character that is not a line terminator (the regex `.`). */
  predicate DnComponent(t: string) {
    exists e :: 0 < e < |t| - 1 && t[e] == '=' && AllLetters(t[..e]) && NoLineTerminator(t[e + 1..])
  }

  /** `,\s*[a-zA-Z]+=.+` filling all of `t`. */
  predicate DnContinuation(t: string) {
    |t| > 0 && t[0] == ',' && exists m :: 1 <= m < |t| && AllSpace(t[1..m]) && DnComponent(t[m..])
  }

  /** `/^([a-zA-Z]+=.+)(,\s*[a-zA-Z]+=.+)*$/`, the DN pattern of the server
      and of the admin page: a first component followed by any number of
      continuations. */
  predicate DnShape(s: string)
    decreases |s|
  {
    || DnComponent(s)
    || exists k :: 0 < k < |s| && DnShape(s[..k]) && DnContinuation(s[k..])
  }

  /** `s` starts with letters and `=` and has at least one character after the `=`. */
  predicate LeadingAttr(s: string) {
    exists e :: 0 < e < |s| - 1 && s[e] == '=' && AllLetters(s[..e])
  }

  /** A component starts with `letters=` and a character. */
  lemma ComponentLeadingAttr(s: string)
    requires DnComponent(s)
    ensures LeadingAttr(s)
  {
    var e :| 0 < e < |s| - 1 && s[e] == '=' && AllLetters(s[..e]) && NoLineTerminator(s[e + 1..]);
    assert 0 < e < |s| - 1 && s[e] == '=' && AllLetters(s[..e]);
  }

  /** What a text starts with, a longer text starts with too. */
  lemma LeadingAttrExtends(p: string, s: string)
    requires LeadingAttr(p) && p <= s
    ensures LeadingAttr(s)
  {
    var e :| 0 < e < |p| - 1 && p[e] == '=' && AllLetters(p[..e]);
    assert p[..e] == s[..e];
    assert 0 < e < |s| - 1 && s[e] == '=' && AllLetters(s[..e]);
  }

  /** Whatever follows, a DN matching the pattern starts with `letters=` and a character. */
  lemma {:induction false} DnShapeLeadingAttr(s: string)
    requires DnShape(s)
    ensures LeadingAttr(s)
    decreases |s|
  {
    if DnComponent(s) {
      ComponentLeadingAttr(s);
    } else {
      var k :| 0 < k < |s| && DnShape(s[..k]) && DnContinuation(s[k..]);
      DnShapeLeadingAttr(s[..k]);
      LeadingAttrExtends(s[..k], s);
    }
  }

  /** On text without line terminators the pattern says no more than
      "starts with `letters=` and one more character": the later
      components add nothing, because `.+` also matches `,` and `=`. */
  lemma DnShapeWithoutTerminators(s: string)
    requires NoLineTerminator(s)
    ensures DnShape(s) <==> LeadingAttr(s)
  {
    if DnShape(s) { DnShapeLeadingAttr(s); }
    if LeadingAttr(s) {
      var e :| 0 < e < |s| - 1 && s[e] == '=' && AllLetters(s[..e]);
      var v := s[e + 1..];
      assert NoLineTerminator(v) by {
        forall k | 0 <= k < |v| ensures !IsLineTerminator(v[k]) { assert v[k] == s[e + 1 + k]; }
      }
      assert DnComponent(s);
    }
  }

  /** The three classes the password lookaheads ask for: `[a-z]`, `[A-Z]`, `\d`. */
  datatype CharClass = Lower | Upper | Digit

  predicate InClass(c: char, cls: CharClass) {
    match cls
    case Lower => IsLower(c)
    case Upper => IsUpper(c)
    case Digit => IsDigit(c)
  }

  /** From index `p`, the regex `.*` followed by a character of `cls` can
      match: some later character is in `cls` and no line terminator lies
      between `p` and it. */
  predicate Reaches(s: string, p: int, cls: CharClass)
    requires 0 <= p <= |s|
  {
    exists q :: p <= q < |s| && InClass(s[q], cls) && NoLineTerminator(s[p..q])
  }

  /** `/(?=.*[a-z])(?=.*[A-Z])(?=.*\d)/.test(s)`: the pattern is not
      anchored, so it holds when from one position all three lookaheads
      succeed, that is when one line of `s` holds a lowercase letter, an
      uppercase letter and a digit. */
  predicate Complexity(s: string) {
    exists p :: 0 <= p <= |s| && Reaches(s, p, Lower) && Reaches(s, p, Upper) && Reaches(s, p, Digit)
  }

  /** `s` has some character of `cls`. */
  predicate HasChar(s: string, cls: CharClass) {
    exists q :: 0 <= q < |s| && InClass(s[q], cls)
  }

  /** On one line the complexity test asks for a lowercase letter, an
      uppercase letter and a digit anywhere in it. */
  lemma ComplexityOneLine(s: string)
    requires NoLineTerminator(s)
    ensures Complexity(s) <==> HasChar(s, Lower) && HasChar(s, Upper) && HasChar(s, Digit)
  {
    if HasChar(s, Lower) && HasChar(s, Upper) && HasChar(s, Digit) {
      var a :| 0 <= a < |s| && InClass(s[a], Lower);
      var b :| 0 <= b < |s| && InClass(s[b], Upper);
      var c :| 0 <= c < |s| && InClass(s[c], Digit);
      assert NoLineTerminator(s[0..a]) && NoLineTerminator(s[0..b]) && NoLineTerminator(s[0..c]);
      assert Reaches(s, 0, Lower) && Reaches(s, 0, Upper) && Reaches(s, 0, Digit);
    }
  }

  lemma NoTerminatorWithin(s: string, p: nat, q: nat, k: nat)
    requires p <= k < q <= |s| && NoLineTerminator(s[p..q])
    ensures !IsLineTerminator(s[k])
  {
    assert s[k] == s[p..q][k - p];
  }

  /** The three kinds spread over two lines do not pass: `"aA\n1"` holds
      all of them and fails the test. */
  lemma ComplexityPerLine()
    ensures HasChar("aA\n1", Lower) && HasChar("aA\n1", Upper) && HasChar("aA\n1", Digit)
    ensures !Complexity("aA\n1")
  {
    var s := "aA\n1";
    assert InClass(s[0], Lower) && InClass(s[1], Upper) && InClass(s[3], Digit);
    forall p | 0 <= p <= |s| ensures !(Reaches(s, p, Lower) && Reaches(s, p, Digit)) {
      if Reaches(s, p, Digit) {
        var q :| p <= q < |s| && InClass(s[q], Digit) && NoLineTerminator(s[p..q]);
        assert q == 3;
        if p < 3 {
          NoTerminatorWithin(s, p, q, 2);
        }
      }
    }
  }
}
