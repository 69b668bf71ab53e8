/**
 * `LDAPUtils`, the page helpers that show DNs and attribute maps: one
 * component per line, the user name or the organisational unit taken out
 * of a DN, and multi-valued attributes joined for display.  They work on
 * the text of the DN and know nothing of the escaping of section 3 of
 * RFC 4514 (`\,` still splits).  A falsy DN (`undefined`, `null`, `""`)
 * is the empty string here.
 */
module LdapUtils {
  import opened JsText
  import opened JsValues

  // ---------------------------------------------------------------------
  // formatDN

  function TrimAll(parts: seq<string>): (r: seq<string>)
    ensures |r| == |parts| && forall i :: 0 <= i < |parts| ==> r[i] == Trim(parts[i])
  {
    seq(|parts|, i requires 0 <= i < |parts| => Trim(parts[i]))
  }

  /** `formatDN`: `'N/A'` for a falsy DN, otherwise every comma-separated
      piece trimmed and the pieces joined with a comma and a line break. */
  function FormatDN(dn: string): string
  {
    if dn == "" then "N/A" else Join(TrimAll(Split(dn, ',')), ",\n")
  }

  /** Every piece prefixed with the character `b`. */
  function PrefixEach(parts: seq<string>, b: char): (r: seq<string>)
    ensures |r| == |parts| && forall i :: 0 <= i < |parts| ==> r[i] == [b] + parts[i]
  {
    seq(|parts|, i requires 0 <= i < |parts| => [b] + parts[i])
  }

  lemma {:induction false} JoinPrefixed(parts: seq<string>, a: char, b: char)
    requires |parts| >= 1
    ensures [b] + Join(parts, [a, b]) == Join(PrefixEach(parts, b), [a])
  {
    if |parts| > 1 {
      var tail := Join(parts[1..], [a, b]);
      JoinPrefixed(parts[1..], a, b);
      assert PrefixEach(parts, b)[1..] == PrefixEach(parts[1..], b);
      assert [b] + Join(parts, [a, b]) == ([b] + parts[0]) + [a] + ([b] + tail);
    }
  }

  lemma JoinHead(parts: seq<string>, sep: string)
    requires |parts| > 1
    ensures Join(parts, sep) == parts[0] + sep + Join(parts[1..], sep)
  {
  }

  lemma RegroupTwo(x: string, a: char, b: char, t: string)
    ensures x + [a] + ([b] + t) == x + [a, b] + t
  {
  }

  /** Joining with the two characters `a b` is joining with `a` the first
      piece and the others each behind a `b`. */
  lemma JoinTwoChars(parts: seq<string>, a: char, b: char)
    requires |parts| >= 1
    ensures Join(parts, [a, b]) == Join([parts[0]] + PrefixEach(parts[1..], b), [a])
  {
    var q := [parts[0]] + PrefixEach(parts[1..], b);
    if |parts| > 1 {
      var rest := PrefixEach(parts[1..], b);
      assert q[0] == parts[0] && q[1..] == rest;
      JoinHead(q, [a]);
      JoinPrefixed(parts[1..], a, b);
      JoinHead(parts, [a, b]);
      RegroupTwo(parts[0], a, b, Join(parts[1..], [a, b]));
    }
  }

  /** Occurrences of `c` in a join of pieces without `c`, by a separator
      holding one `c`: one per separator. */
  lemma {:induction false} JoinCount(parts: seq<string>, sep: string, c: char)
    requires |parts| >= 1 && Count(sep, c) == 1
    requires forall i :: 0 <= i < |parts| ==> c !in parts[i]
    ensures Count(Join(parts, sep), c) == |parts| - 1
  {
    CountZero(parts[0], c);
    if |parts| > 1 {
      JoinCount(parts[1..], sep, c);
      CountAppend(parts[0] + sep, Join(parts[1..], sep), c);
      CountAppend(parts[0], sep, c);
    }
  }

  /** A trimmed piece is part of the piece, so it holds no character the
      piece does not. */
  lemma TrimWithout(s: string, c: char)
    requires c !in s
    ensures c !in Trim(s)
  {
    var i := SkipSpaceForward(s, 0);
    var e := SkipSpaceBackward(s, i, |s|);
    assert Trim(s) == s[i..e];
    assert forall x :: x in s[i..e] ==> x in s;
  }

  lemma TrimAllWithout(parts: seq<string>, c: char)
    requires forall i :: 0 <= i < |parts| ==> c !in parts[i]
    ensures forall i :: 0 <= i < |parts| ==> c !in TrimAll(parts)[i]
  {
    forall i | 0 <= i < |parts| ensures c !in TrimAll(parts)[i] { TrimWithout(parts[i], c); }
  }

  lemma SeparatorCounts()
    ensures Count(",\n", ',') == 1 && Count(",\n", '\n') == 1
  {
    assert ",\n"[1..] == "\n";
    assert "\n"[1..] == "";
  }

  /** The formatted DN keeps every comma and nothing else adds one. */
  lemma FormatDNCommas(dn: string)
    requires dn != ""
    ensures Count(FormatDN(dn), ',') == Count(dn, ',')
  {
    var parts := Split(dn, ',');
    var ts := TrimAll(parts);
    SplitCount(dn, ',');
    TrimAllWithout(parts, ',');
    SeparatorCounts();
    JoinCount(ts, ",\n", ',');
  }

  /** A line break follows each comma, so a DN without line breaks shows
      one line per component. */
  lemma FormatDNLines(dn: string)
    requires dn != "" && '\n' !in dn
    ensures Count(FormatDN(dn), '\n') == Count(dn, ',')
    ensures |Split(FormatDN(dn), '\n')| == Count(dn, ',') + 1
  {
    var parts := Split(dn, ',');
    var ts := TrimAll(parts);
    SplitCount(dn, ',');
    forall i | 0 <= i < |parts| ensures '\n' !in parts[i] {
      PieceWithout(dn, ',', '\n', i);
    }
    TrimAllWithout(parts, '\n');
    SeparatorCounts();
    JoinCount(ts, ",\n", '\n');
    SplitCount(FormatDN(dn), '\n');
  }

  /** A piece of a split holds no character the whole string does not. */
  lemma {:induction false} PieceWithout(s: string, sep: char, c: char, i: nat)
    requires c !in s && i < |Split(s, sep)|
    ensures c !in Split(s, sep)[i]
    decreases |s|
  {
    if sep in s {
      var j := IndexOf(s, sep);
      if i == 0 {
        assert forall x :: x in s[..j] ==> x in s;
      } else {
        assert forall x :: x in s[j + 1..] ==> x in s;
        PieceWithout(s[j + 1..], sep, c, i - 1);
      }
    }
  }

  /** Formatting an already formatted DN changes nothing (unless it came
      out empty, which a falsy value turns into `'N/A'`). */
  lemma FormatDNIdempotent(dn: string)
    requires FormatDN(dn) != ""
    ensures FormatDN(FormatDN(dn)) == FormatDN(dn)
  {
    if dn != "" {
      var parts := Split(dn, ',');
      TrimAllWithout(parts, ',');
      ResplitTrimmed(TrimAll(parts));
    } else {
      assert Split("N/A", ',') == ["N/A"];
      assert Trim("N/A") == "N/A" by { TrimOfTrimmed("N/A"); }
    }
  }

  /** The pieces that a split at the commas finds in `Join(ts, ",\n")`:
      the first as it is, the others behind their line break. */
  function Relined(ts: seq<string>): (q: seq<string>)
    requires |ts| >= 1
    ensures |q| == |ts| && q[0] == ts[0] && forall i :: 1 <= i < |ts| ==> q[i] == ['\n'] + ts[i]
  {
    [ts[0]] + PrefixEach(ts[1..], '\n')
  }

  lemma RelinedJoin(ts: seq<string>)
    requires |ts| >= 1
    ensures Join(ts, ",\n") == Join(Relined(ts), [','])
  {
    assert ",\n" == [',', '\n'];
    JoinTwoChars(ts, ',', '\n');
  }

  lemma RelinedSplit(ts: seq<string>)
    requires |ts| >= 1
    requires forall i :: 0 <= i < |ts| ==> ',' !in ts[i]
    ensures Split(Join(Relined(ts), [',']), ',') == Relined(ts)
  {
    var q := Relined(ts);
    forall i | 0 <= i < |q| ensures ',' !in q[i] {
      if i > 0 { assert q[i] == ['\n'] + ts[i]; }
    }
    SplitJoin(q, ',');
  }

  /** A line break before a trimmed piece is trimmed away. */
  lemma TrimBreak(p: string)
    requires IsTrimmed(p)
    ensures Trim(['\n'] + p) == p
  {
    assert AllSpace(['\n']);
    TrimAfterSpace(['\n'], p);
  }

  lemma RelinedTrim(ts: seq<string>)
    requires |ts| >= 1
    requires forall i :: 0 <= i < |ts| ==> IsTrimmed(ts[i])
    ensures TrimAll(Relined(ts)) == ts
  {
    var q := Relined(ts);
    var r := TrimAll(q);
    forall i | 0 <= i < |q| ensures r[i] == ts[i] {
      if i > 0 {
        TrimBreak(ts[i]);
      } else {
        TrimOfTrimmed(ts[0]);
      }
    }
  }

  /** Trimmed, comma-free pieces joined with `",\n"`, split at the commas
      and trimmed again, are the pieces themselves. */
  lemma ResplitTrimmed(ts: seq<string>)
    requires |ts| >= 1
    requires forall i :: 0 <= i < |ts| ==> IsTrimmed(ts[i]) && ',' !in ts[i]
    ensures TrimAll(Split(Join(ts, ",\n"), ',')) == ts
  {
    RelinedJoin(ts);
    RelinedSplit(ts);
    RelinedTrim(ts);
  }

  /** `'N/A'` only for the empty DN; a DN shows as an empty string exactly
      when it is non-empty and all blanks (it then has no comma to split
      at, and its one piece trims to nothing). */
  lemma FormatDNBlank(dn: string)
    ensures FormatDN("") == "N/A"
    ensures FormatDN(dn) == "" <==> dn != "" && AllSpace(dn)
  {
    if dn != "" {
      if ',' in dn {
        var parts := TrimAll(Split(dn, ','));
        SplitCount(dn, ',');
        CountZero(dn, ',');
        assert |parts| > 1;
        assert FormatDN(dn) == parts[0] + ",\n" + Join(parts[1..], ",\n");
        var k :| 0 <= k < |dn| && dn[k] == ',';
        assert !IsSpace(dn[k]);
      } else {
        assert FormatDN(dn) == Trim(dn);
        if AllSpace(dn) {
          TrimAfterSpace(dn, "");
          assert dn + "" == dn;
        }
        if Trim(dn) == "" {
          var i :| 0 <= i <= |dn| && SpaceBetween(dn, 0, i) && SpaceBetween(dn, i, |dn|);
          assert AllSpace(dn);
        }
      }
    }
  }

  // ---------------------------------------------------------------------
  // extractUsername and extractOU

  /** What `[^,]+` takes from the start of `s`: everything up to the first comma. */
  function UpToComma(s: string): (v: string)
    ensures v <= s && ',' !in v
    ensures |v| == |s| || s[|v|] == ','
  {
    if ',' in s then s[..IndexOf(s, ',')] else s
  }

  /** The length of the `cn=` or `uid=` prefix, matched without regard to
      case, or 0 when the DN has neither. */
  function NamingPrefix(dn: string): nat
  {
    if |dn| >= 3 && ToLower(dn[..3]) == "cn=" then 3
    else if |dn| >= 4 && ToLower(dn[..4]) == "uid=" then 4
    else 0
  }

  /** `extractUsername`: `/^(cn|uid)=([^,]+)/i` — the value up to the
      first comma after a leading `cn=` or `uid=`; the DN itself when that
      fails, `'N/A'` for a falsy DN. */
  function ExtractUsername(dn: string): (r: string)
  {
    if dn == "" then "N/A"
    else
      var n := NamingPrefix(dn);
      if n > 0 && n <= |dn| && UpToComma(dn[n..]) != "" then UpToComma(dn[n..]) else dn
  }

  /** A `cn` or `uid` attribute (in any case) and `=` make the prefix. */
  lemma NamingPrefixOf(attr: string, tail: string)
    requires ToLower(attr) == "cn" || ToLower(attr) == "uid"
    requires tail != ""
    ensures NamingPrefix(attr + "=" + tail) == |attr| + 1
  {
    var dn := attr + "=" + tail;
    if ToLower(attr) == "cn" {
      assert dn[..3] == attr + "=";
      assert ToLower(dn[..3]) == "cn=" by {
        assert ToLower(dn[..3])[..2] == ToLower(attr);
      }
    } else {
      assert dn[..4] == attr + "=";
      assert ToLower(dn[..3]) != "cn=" by { assert ToLower(dn[..3])[2] == LowerChar(attr[2]) == 'd'; }
      assert ToLower(dn[..4]) == "uid=" by {
        assert ToLower(dn[..4])[..3] == ToLower(attr);
      }
    }
  }

  /** The value before a comma, or before the end, is what `[^,]+` takes. */
  lemma UpToCommaOf(value: string, rest: string)
    requires ',' !in value
    requires rest == "" || rest[0] == ','
    ensures UpToComma(value + rest) == value
  {
    if rest != "" {
      var t := value + rest;
      assert t[..|value|] == value;
      IndexOfAt(t, ',', |value|);
    }
  }

  /** The value of a `cn` or `uid` component (the attribute in any case)
      is what comes back, whatever follows its comma. */
  lemma ExtractUsernameOf(attr: string, value: string, rest: string)
    requires ToLower(attr) == "cn" || ToLower(attr) == "uid"
    requires value != "" && ',' !in value
    requires rest == "" || rest[0] == ','
    ensures ExtractUsername(attr + "=" + value + rest) == value
  {
    var dn := attr + "=" + value + rest;
    assert dn == attr + "=" + (value + rest);
    NamingPrefixOf(attr, value + rest);
    assert dn[|attr| + 1..] == value + rest;
    UpToCommaOf(value, rest);
  }

  /** Anything else is shown as it is: a DN that does not start with a
      `cn=` or `uid=` followed by a non-comma character comes back unchanged. */
  lemma ExtractUsernameElse(dn: string)
    requires dn != ""
    requires !(|dn| > 3 && ToLower(dn[..3]) == "cn=" && dn[3] != ',')
    requires !(|dn| > 4 && ToLower(dn[..4]) == "uid=" && dn[4] != ',')
    ensures ExtractUsername(dn) == dn
  {
    var n := NamingPrefix(dn);
    if n > 0 && n < |dn| && dn[n] != ',' {
      assert false;
    }
    if n > 0 && n < |dn| {
      assert dn[n..][0] == ',';
    }
  }

  /** At index `i` the unanchored `ou=([^,]+)` matches: `ou=` in any case
      and then a character that is not a comma. */
  predicate OuAt(dn: string, i: int) {
    0 <= i && i + 4 <= |dn| && ToLower(dn[i..i + 3]) == "ou=" && dn[i + 3] != ','
  }

  /** The leftmost index at or after `i` where the expression matches. */
  function FindOu(dn: string, i: nat): (r: Option<nat>)
    requires i <= |dn|
    ensures r.Some? ==> i <= r.value && OuAt(dn, r.value) && forall j :: i <= j < r.value ==> !OuAt(dn, j)
    ensures r.None? ==> forall j :: i <= j ==> !OuAt(dn, j)
    decreases |dn| - i
  {
    if i + 4 > |dn| then None
    else if OuAt(dn, i) then Some(i)
    else FindOu(dn, i + 1)
  }

  /** `extractOU`: the value after the leftmost `ou=` (in any case) that
      has one, up to the next comma; `'N/A'` when there is none or the DN is falsy. */
  function ExtractOU(dn: string): (r: string)
  {
    if dn == "" then "N/A"
    else match FindOu(dn, 0)
      case None => "N/A"
      case Some(i) => UpToComma(dn[i + 3..])
  }

  /** The unit found is a non-empty, comma-free value that follows the
      leftmost matching `ou=`; with no match the answer is `'N/A'`. */
  lemma ExtractOULeftmost(dn: string)
    ensures (forall i :: !OuAt(dn, i)) ==> ExtractOU(dn) == "N/A"
    ensures forall i :: OuAt(dn, i) && (forall j :: 0 <= j < i ==> !OuAt(dn, j)) ==>
              ExtractOU(dn) == UpToComma(dn[i + 3..]) && ExtractOU(dn) != "" && ',' !in ExtractOU(dn)
  {
    forall i | OuAt(dn, i) && (forall j :: 0 <= j < i ==> !OuAt(dn, j))
      ensures ExtractOU(dn) == UpToComma(dn[i + 3..]) && ExtractOU(dn) != ""
    {
      var r := FindOu(dn, 0);
      assert r.Some? && r.value == i;
      assert dn[i + 3..][0] == dn[i + 3];
    }
  }

  /** A unit value that is cut short by a comma is skipped for the next
      `ou=`: `ou=,ou=x` gives `x`. */
  lemma ExtractOUSkipsEmpty()
    ensures ExtractOU("ou=,ou=x") == "x"
  {
    var dn := "ou=,ou=x";
    assert !OuAt(dn, 0) && !OuAt(dn, 1) && !OuAt(dn, 2) && !OuAt(dn, 3);
    assert dn[4..7] == "ou=" && OuAt(dn, 4);
    assert FindOu(dn, 0) == Some(4);
    assert dn[7..] == "x";
  }

  // ---------------------------------------------------------------------
  // formatAttributes

  /** One attribute value as shown: an array joined with `', '`. */
  function FormatValue(v: Value): (r: Value)
    ensures !r.List?
  {
    match v
    case List(items) => Str(Join(items, ", "))
    case _ => v
  }

  /** `formatAttributes`: the same keys in the same order, each value formatted. */
  function FormatAttributes(attrs: Obj): (r: Obj)
    ensures Keys(r) == Keys(attrs)
    ensures forall i :: 0 <= i < |r| ==> !r[i].1.List?
  {
    seq(|attrs|, i requires 0 <= i < |attrs| => (attrs[i].0, FormatValue(attrs[i].1)))
  }

  /** Looking an attribute up after formatting is formatting what the
      lookup gave before. */
  lemma {:induction false} FormatAttributesGet(attrs: Obj, k: string)
    ensures Get(FormatAttributes(attrs), k) == FormatValue(Get(attrs, k))
  {
    if |attrs| > 0 && attrs[0].0 != k {
      FormatAttributesGet(attrs[1..], k);
      assert FormatAttributes(attrs)[1..] == FormatAttributes(attrs[1..]);
    }
  }

  /** Formatting twice is formatting once. */
  lemma FormatAttributesIdempotent(attrs: Obj)
    ensures FormatAttributes(FormatAttributes(attrs)) == FormatAttributes(attrs)
  {
  }

  /** The join loses the boundaries between values: a single value that
      holds `", "` shows like two values. */
  lemma FormatValueJoinsAway()
    ensures FormatValue(List(["a, b"])) == FormatValue(List(["a", "b"]))
  {
    assert Join(["a", "b"], ", ") == "a" + ", " + Join(["b"], ", ");
  }
}
