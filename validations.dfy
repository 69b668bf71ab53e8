/**
 * The browser-side form checks: the rule loop of `FormValidator`, its
 * username, phone and e-mail tests, the toast icon table, and the
 * `LDAPValidation` helpers for DNs, attribute names and group names.
 * The page itself (events, CSS classes, feedback elements, toasts) is
 * not modelled: a field is its `name` and its raw `value`.
 */
module Validations {
  import opened JsText
  import opened Patterns
  import opened JsValues

  // ---------------------------------------------------------------------
  // Rules and their verdict

  /** The `type` of a rule with its parameter; any other type is skipped. */
  datatype RuleKind =
    | Required
    | MinLength(min: int)
    | MaxLength(max: int)
    | EmailRule
    | UsernameRule
    | PhoneRule
    | CustomRule(validator: string -> bool)
    | Unknown

  /** A rule; the empty message stands for a rule without `message`,
      which falls back to the rule's default text. */
  datatype Rule = Rule(kind: RuleKind, message: string)

  /** `String(n)` for an integer. */
  function IntToString(n: int): (r: string)
    ensures |r| > 0
  {
    if n < 0 then "-" + NatToString(-n) else NatToString(n)
  }

  function DefaultMessage(kind: RuleKind): string {
    match kind
    case Required => "Este campo es obligatorio"
    case MinLength(n) => "Mínimo " + IntToString(n) + " caracteres"
    case MaxLength(n) => "Máximo " + IntToString(n) + " caracteres"
    case EmailRule => "Email inválido"
    case UsernameRule => "Usuario debe ser alfanumérico (a-z, 0-9, -, _)"
    case PhoneRule => "Número de teléfono inválido"
    case CustomRule(_) => "Valor inválido"
    case Unknown => ""
  }

  /** `rule.message || default`. */
  function MessageOf(r: Rule): string {
    if r.message != "" then r.message else DefaultMessage(r.kind)
  }

  /** The rule rejects the (already trimmed) value.  Only `required`
      looks at an empty value; every other rule lets it through. */
  predicate Breaks(r: Rule, value: string) {
    match r.kind
    case Required => value == ""
    case MinLength(n) => value != "" && |value| < n
    case MaxLength(n) => value != "" && |value| > n
    case EmailRule => value != "" && !EmailShape(value)
    case UsernameRule => value != "" && !IsValidUsername(value)
    case PhoneRule => value != "" && !IsValidPhone(value)
    case CustomRule(f) => value != "" && !f(value)
    case Unknown => false
  }

  /** Rule `i` is the first of `rules` that rejects `value`. */
  predicate DecidedBy(rules: seq<Rule>, value: string, i: int) {
    0 <= i < |rules| && Breaks(rules[i], value) && forall j :: 0 <= j < i ==> !Breaks(rules[j], value)
  }

  /** Validity and message of a value under a list of rules, the rules
      tried in order: valid, with an empty message, when no rule rejects
      the value (`VerdictMessage` names the rule that decides otherwise). */
  function Verdict(rules: seq<Rule>, value: string): (v: (bool, string))
    ensures v.0 <==> forall i :: 0 <= i < |rules| ==> !Breaks(rules[i], value)
    ensures v.0 ==> v.1 == ""
  {
    if rules == [] then (true, "")
    else if Breaks(rules[0], value) then (false, MessageOf(rules[0]))
    else
      assert forall i :: 1 <= i < |rules| ==> rules[i] == rules[1..][i - 1];
      Verdict(rules[1..], value)
  }

  /** A rejected value carries the message of the first rule that rejects it. */
  lemma {:induction false} VerdictMessage(rules: seq<Rule>, value: string)
    requires !Verdict(rules, value).0
    ensures exists i :: DecidedBy(rules, value, i) && Verdict(rules, value).1 == MessageOf(rules[i])
  {
    if Breaks(rules[0], value) {
      assert DecidedBy(rules, value, 0);
    } else {
      VerdictMessage(rules[1..], value);
      var i :| DecidedBy(rules[1..], value, i) && Verdict(rules[1..], value).1 == MessageOf(rules[1..][i]);
      assert forall j :: 1 <= j <= i + 1 ==> rules[j] == rules[1..][j - 1];
      assert DecidedBy(rules, value, i + 1);
    }
  }

  /** `validateField` on a field: one without a name, or without rules,
      is valid; otherwise its trimmed value goes through its rules. */
  function FieldVerdict(rules: map<string, seq<Rule>>, name: string, raw: string): (v: (bool, string))
  {
    if name == "" || name !in rules then (true, "") else Verdict(rules[name], Trim(raw))
  }

  /** The validity half of `FieldVerdict`. */
  predicate FieldOk(rules: map<string, seq<Rule>>, field: (string, string)) {
    FieldVerdict(rules, field.0, field.1).0
  }

  /** An empty (or blank) value fails exactly when a `required` rule is present. */
  lemma {:induction false} BlankVerdict(rules: seq<Rule>, raw: string)
    requires Trim(raw) == ""
    ensures Verdict(rules, Trim(raw)).0 <==> forall i :: 0 <= i < |rules| ==> !rules[i].kind.Required?
  {
    forall i | 0 <= i < |rules| ensures Breaks(rules[i], "") <==> rules[i].kind.Required? {
      match rules[i].kind
      case Required =>
      case _ =>
    }
  }

  /** Rules placed after one that fails are never consulted. */
  lemma {:induction false} VerdictStopsAtFirst(rules: seq<Rule>, more: seq<Rule>, value: string)
    requires !Verdict(rules, value).0
    ensures Verdict(rules + more, value) == Verdict(rules, value)
  {
    assert (rules + more)[0] == rules[0];
    if !Breaks(rules[0], value) {
      assert (rules + more)[1..] == rules[1..] + more;
      VerdictStopsAtFirst(rules[1..], more, value);
    }
  }

  /** The validator of one form: the rules and messages registered per field name. */
  class FormValidator {
    var rules: map<string, seq<Rule>>
    var messages: map<string, string>

    constructor ()
      ensures rules == map[] && messages == map[]
    {
      rules := map[];
      messages := map[];
    }

    /** `addRule`: the field's rules and message are replaced. */
    method AddRule(fieldName: string, fieldRules: seq<Rule>, message: string)
      modifies this
      ensures rules == old(rules)[fieldName := fieldRules]
      ensures messages == old(messages)[fieldName := message]
    {
      rules := rules[fieldName := fieldRules];
      messages := messages[fieldName := message];
    }

    /** `validateField`: the rules run in order on the trimmed value, and
        the loop stops at the first one that rejects it. */
    method ValidateField(name: string, raw: string) returns (isValid: bool, errorMessage: string)
      ensures (isValid, errorMessage) == FieldVerdict(rules, name, raw)
    {
      if name == "" || name !in rules {
        return true, "";
      }
      var value := Trim(raw);
      var fieldRules := rules[name];
      isValid, errorMessage := true, "";
      var i := 0;
      while i < |fieldRules|
        invariant 0 <= i <= |fieldRules|
        invariant Verdict(fieldRules[i..], value) == Verdict(fieldRules, value)
        invariant isValid && errorMessage == ""
      {
        if Breaks(fieldRules[i], value) {
          isValid, errorMessage := false, MessageOf(fieldRules[i]);
          break;
        }
        assert fieldRules[i..][1..] == fieldRules[i + 1..];
        i := i + 1;
      }
    }

    /** `validateAll`: every named field is validated, also after one has
        failed, and the form is valid when all of them are. */
    method ValidateAll(fields: seq<(string, string)>) returns (allValid: bool, verdicts: seq<bool>)
      ensures |verdicts| == |fields|
      ensures forall i :: 0 <= i < |fields| ==> verdicts[i] == FieldOk(rules, fields[i])
      ensures allValid <==> forall i :: 0 <= i < |fields| ==> FieldOk(rules, fields[i])
    {
      allValid := true;
      verdicts := [];
      for i := 0 to |fields|
        invariant |verdicts| == i
        invariant forall j :: 0 <= j < i ==> verdicts[j] == FieldOk(rules, fields[j])
        invariant allValid <==> forall j :: 0 <= j < i ==> verdicts[j]
      {
        var ok, _ := ValidateField(fields[i].0, fields[i].1);
        verdicts := verdicts + [ok];
        if !ok {
          allValid := false;
        }
      }
    }
  }

  // ---------------------------------------------------------------------
  // Username, group and phone tests

  /** `[a-zA-Z0-9_-]`. */
  predicate NameChar(c: char) {
    IsAsciiLetter(c) || IsDigit(c) || c == '_' || c == '-'
  }

  /** `/^[a-zA-Z0-9_-]+$/`, the test of `isValidGroup`. */
  predicate IsValidGroup(s: string) {
    s != [] && forall k :: 0 <= k < |s| ==> NameChar(s[k])
  }

  /** `isValidUsername`: the same expression and at least three characters. */
  predicate IsValidUsername(s: string) {
    IsValidGroup(s) && |s| >= 3
  }

  /** `.` is outside the class, so no name holding it is accepted. */
  lemma UsernameRejectsDot(s: string, k: nat)
    requires k < |s| && s[k] == '.'
    ensures !IsValidUsername(s) && !IsValidGroup(s)
  {
    assert !NameChar(s[k]);
  }

  /** The characters removed by `replace(/[\s\-\(\)]/g, '')`. */
  predicate PhoneSeparator(c: char) {
    IsSpace(c) || c == '-' || c == '(' || c == ')'
  }

  /** The phone number with every separator removed. */
  function StripPhone(s: string): (r: string)
    ensures |r| <= |s|
    ensures forall k :: 0 <= k < |r| ==> !PhoneSeparator(r[k])
  {
    if s == [] then []
    else (if PhoneSeparator(s[0]) then [] else [s[0]]) + StripPhone(s[1..])
  }

  lemma {:induction false} StripPhoneAppend(a: string, b: string)
    ensures StripPhone(a + b) == StripPhone(a) + StripPhone(b)
  {
    if a == [] {
      assert a + b == b;
    } else {
      assert (a + b)[1..] == a[1..] + b;
      StripPhoneAppend(a[1..], b);
    }
  }

  /** Stripping keeps every other character, as often as it occurs. */
  lemma {:induction false} StripPhoneKeeps(s: string, c: char)
    requires !PhoneSeparator(c)
    ensures Count(StripPhone(s), c) == Count(s, c)
  {
    if s != [] {
      StripPhoneKeeps(s[1..], c);
      CountAppend(if PhoneSeparator(s[0]) then [] else [s[0]], StripPhone(s[1..]), c);
    }
  }

  /** `[1-9][\d]{0,15}` filling all of `t`. */
  predicate PhoneDigits(t: string) {
    1 <= |t| <= 16 && '1' <= t[0] <= '9' && forall k :: 0 <= k < |t| ==> IsDigit(t[k])
  }

  /** `/^[\+]?[1-9][\d]{0,15}$/`. */
  predicate PhoneShape(t: string) {
    PhoneDigits(t) || (|t| >= 1 && t[0] == '+' && PhoneDigits(t[1..]))
  }

  /** `isValidPhone`. */
  predicate IsValidPhone(s: string) {
    PhoneShape(StripPhone(s))
  }

  /** A separator inserted anywhere never changes the verdict. */
  lemma PhoneIgnoresSeparator(a: string, c: char, b: string)
    requires PhoneSeparator(c)
    ensures IsValidPhone(a + [c] + b) <==> IsValidPhone(a + b)
  {
    StripPhoneAppend(a + [c], b);
    StripPhoneAppend(a, [c]);
    StripPhoneAppend(a, b);
    assert [c][1..] == [];
    assert StripPhone([c]) == [] + StripPhone([]);
    assert StripPhone(a + [c] + b) == StripPhone(a + b);
  }

  /** An accepted number is, once separators are gone, an optional
      leading `+` and then one to sixteen decimal digits, the first not
      zero; the raw input holds nothing but digits, separators and that
      one `+`. */
  lemma PhoneBounds(s: string)
    requires IsValidPhone(s)
    ensures var t := StripPhone(s); var d := if t[0] == '+' then t[1..] else t;
      && 1 <= |d| <= 16 && d[0] != '0'
      && (forall k :: 0 <= k < |d| ==> IsDigit(d[k]))
    ensures forall k :: 0 < k < |StripPhone(s)| ==> StripPhone(s)[k] != '+'
    ensures Count(s, '+') <= 1
    ensures forall c :: c in s ==> IsDigit(c) || PhoneSeparator(c) || c == '+'
  {
    var t := StripPhone(s);
    StripPhoneKeeps(s, '+');
    if PhoneDigits(t) {
      assert '+' !in t by { assert forall k :: 0 <= k < |t| ==> t[k] != '+'; }
      CountZero(t, '+');
    } else {
      assert '+' !in t[1..] by { assert forall k :: 0 <= k < |t[1..]| ==> t[1..][k] != '+'; }
      CountZero(t[1..], '+');
      assert t == [t[0]] + t[1..];
      CountAppend([t[0]], t[1..], '+');
    }
    forall c | c in s && !IsDigit(c) && c != '+'
      ensures PhoneSeparator(c)
    {
      if !PhoneSeparator(c) {
        assert c !in t by {
          forall k | 0 <= k < |t| ensures t[k] != c {
            if PhoneDigits(t) {
              assert IsDigit(t[k]);
            } else if k > 0 {
              assert t[k] == t[1..][k - 1];
            }
          }
        }
        StripPhoneKeeps(s, c);
        CountZero(t, c);
        CountZero(s, c);
      }
    }
  }

  // ---------------------------------------------------------------------
  // Toast icons

  const ToastIcons: map<string, string> := map[
    "success" := "check-circle",
    "danger" := "exclamation-triangle",
    "warning" := "exclamation-circle",
    "info" := "info-circle"]

  /** `getToastIcon`: the table's icon, `'info-circle'` for any other type. */
  function ToastIcon(kind: string): (icon: string)
    ensures icon in ToastIcons.Values
    ensures kind in ToastIcons ==> icon == ToastIcons[kind]
    ensures kind !in ToastIcons ==> icon == ToastIcons["info"]
  {
    if kind in ToastIcons then
      var icon := ToastIcons[kind];
      assert icon in ToastIcons.Values;
      icon
    else
      assert ToastIcons["info"] in ToastIcons.Values;
      "info-circle"
  }

  // ---------------------------------------------------------------------
  // LDAPValidation

  /** `[a-zA-Z][a-zA-Z0-9]*` filling all of `t`. */
  predicate AttrName(t: string) {
    |t| >= 1 && IsAsciiLetter(t[0]) && forall k :: 1 <= k < |t| ==> IsAsciiLetter(t[k]) || IsDigit(t[k])
  }

  /** `[^,=]+` filling all of `v`. */
  predicate RdnValue(v: string) {
    |v| >= 1 && forall k :: 0 <= k < |v| ==> v[k] != ',' && v[k] != '='
  }

  /** One `attr=value` component. */
  predicate Rdn(t: string) {
    exists e :: 0 < e < |t| && t[e] == '=' && AttrName(t[..e]) && RdnValue(t[e + 1..])
  }

  /** `/^([a-zA-Z][a-zA-Z0-9]*=[^,=]+,)*([a-zA-Z][a-zA-Z0-9]*=[^,=]+)$/`:
      components, each followed by a comma except the last. */
  predicate ClientDnShape(s: string)
    decreases |s|
  {
    || Rdn(s)
    || exists k :: 0 < k < |s| && s[k] == ',' && Rdn(s[..k]) && ClientDnShape(s[k + 1..])
  }

  lemma RdnNoComma(t: string)
    requires Rdn(t)
    ensures ',' !in t && |t| >= 3
  {
    var e :| 0 < e < |t| && t[e] == '=' && AttrName(t[..e]) && RdnValue(t[e + 1..]);
    forall k | 0 <= k < |t| ensures t[k] != ',' {
      if k < e { assert t[k] == t[..e][k]; }
      else if k > e { assert t[k] == t[e + 1..][k - e - 1]; }
    }
  }

  lemma RdnAt(t: string, e: nat)
    requires e < |t| && t[e] == '=' && AttrName(t[..e]) && RdnValue(t[e + 1..])
    ensures Rdn(t)
  {
  }

  lemma RdnOf(attr: string, value: string)
    requires AttrName(attr) && RdnValue(value)
    ensures Rdn(attr + "=" + value)
  {
    var t := attr + "=" + value;
    assert t[..|attr|] == attr && t[|attr| + 1..] == value;
  }

  /** A component, a comma and a DN make a DN. */
  lemma ClientDnCons(first: string, rest: string)
    requires Rdn(first) && ClientDnShape(rest)
    ensures ClientDnShape(first + "," + rest)
  {
    var s := first + "," + rest;
    assert s[..|first|] == first && s[|first| + 1..] == rest;
  }

  /** Without a comma the DN is one component. */
  lemma ClientDnNoComma(s: string)
    requires ',' !in s
    ensures ClientDnShape(s) <==> Rdn(s)
  {
  }

  /** With a comma, the DN check is the component check of the text
      before the first comma and the DN check of the text after it. */
  lemma ClientDnFirstComma(s: string)
    requires ',' in s
    ensures ClientDnShape(s) <==> Rdn(s[..IndexOf(s, ',')]) && ClientDnShape(s[IndexOf(s, ',') + 1..])
  {
    if ClientDnShape(s) {
      ClientDnSplitsAtFirst(s);
    }
    if Rdn(s[..IndexOf(s, ',')]) && ClientDnShape(s[IndexOf(s, ',') + 1..]) {
      ClientDnJoinsAtFirst(s);
    }
  }

  lemma ClientDnSplitsAtFirst(s: string)
    requires ',' in s && ClientDnShape(s)
    ensures Rdn(s[..IndexOf(s, ',')]) && ClientDnShape(s[IndexOf(s, ',') + 1..])
  {
    if Rdn(s) {
      RdnNoComma(s);
      assert false;
    }
    var k :| 0 < k < |s| && s[k] == ',' && Rdn(s[..k]) && ClientDnShape(s[k + 1..]);
    RdnNoComma(s[..k]);
    IndexOfAt(s, ',', k);
  }

  lemma ClientDnJoinsAtFirst(s: string)
    requires ',' in s
    requires Rdn(s[..IndexOf(s, ',')]) && ClientDnShape(s[IndexOf(s, ',') + 1..])
    ensures ClientDnShape(s)
  {
    var i := IndexOf(s, ',');
    RdnNoComma(s[..i]);
    assert 0 < i < |s| && s[i] == ',';
  }

  predicate AllRdn(parts: seq<string>) {
    forall i :: 0 <= i < |parts| ==> Rdn(parts[i])
  }

  lemma AllRdnCons(x: string, ps: seq<string>)
    ensures AllRdn([x] + ps) <==> Rdn(x) && AllRdn(ps)
  {
    var xs := [x] + ps;
    assert xs[0] == x;
    assert forall j :: 0 <= j < |ps| ==> xs[j + 1] == ps[j];
    if Rdn(x) && AllRdn(ps) {
      forall j | 0 <= j < |xs| ensures Rdn(xs[j]) {
        if j > 0 { assert xs[j] == ps[j - 1]; }
      }
    }
  }

  /** The DN check holds exactly when every comma-separated piece is one
      `attr=value` component. */
  lemma {:induction false} ClientDnSplit(s: string)
    ensures ClientDnShape(s) <==> AllRdn(Split(s, ','))
    decreases |s|
  {
    if ',' !in s {
      ClientDnNoComma(s);
      assert Split(s, ',') == [s] + [];
      AllRdnCons(s, []);
    } else {
      var i := IndexOf(s, ',');
      var rest := s[i + 1..];
      assert Split(s, ',') == [s[..i]] + Split(rest, ',');
      AllRdnCons(s[..i], Split(rest, ','));
      ClientDnFirstComma(s);
      ClientDnSplit(rest);
    }
  }

  /** `isValidAttribute`: `/^[a-zA-Z][a-zA-Z0-9-]*$/`. */
  predicate IsValidAttribute(attr: string) {
    |attr| >= 1 && IsAsciiLetter(attr[0])
    && forall k :: 1 <= k < |attr| ==> IsAsciiLetter(attr[k]) || IsDigit(attr[k]) || attr[k] == '-'
  }

  /** An accepted attribute name holds no `=`, `,` or white space, so it
      can stand before the `=` of a component. */
  lemma IsValidAttributeChars(attr: string)
    requires IsValidAttribute(attr)
    ensures forall k :: 0 <= k < |attr| ==> attr[k] != '=' && attr[k] != ',' && !IsSpace(attr[k])
  {
    forall k | 0 <= k < |attr| ensures attr[k] != '=' && attr[k] != ',' && !IsSpace(attr[k]) {
      if k > 0 {
        assert IsAsciiLetter(attr[k]) || IsDigit(attr[k]) || attr[k] == '-';
      }
    }
  }

  /** The DN check's attribute names are exactly the accepted attribute
      names without `-`: the DN pattern leaves the hyphen out. */
  lemma AttributeDnAttr(attr: string)
    ensures AttrName(attr) <==> IsValidAttribute(attr) && '-' !in attr
  {
    if IsValidAttribute(attr) && '-' !in attr {
      forall k | 1 <= k < |attr| ensures IsAsciiLetter(attr[k]) || IsDigit(attr[k]) {
        assert attr[k] != '-';
      }
    }
  }

  /** So an accepted attribute name with a hyphen, such as `x-y`, makes a
      component that the DN check refuses, whatever its value. */
  lemma HyphenAttributeRefused(attr: string, value: string)
    requires IsValidAttribute(attr) && '-' in attr
    ensures !Rdn(attr + "=" + value)
  {
    var t := attr + "=" + value;
    IsValidAttributeChars(attr);
    AttributeDnAttr(attr);
    forall e | 0 < e < |t| && t[e] == '='
      ensures !(AttrName(t[..e]) && RdnValue(t[e + 1..]))
    {
      if e == |attr| {
        assert t[..e] == attr;
      } else if e > |attr| {
        assert t[..e][|attr|] == '=';
      }
    }
  }

  /** The base used when `generateUserDN` is called without one. */
  const DefaultUserBase := Component("ou", "users") + "," + (Component("dc", "company") + "," + Component("dc", "local"))

  /** `attr=value`. */
  function Component(attr: string, value: string): string {
    attr + "=" + value
  }

  /** `generateUserDN(username, baseDN)`; `None` is an omitted base. */
  function GenerateUserDN(username: string, baseDN: Option<string>): (dn: string)
  {
    "uid=" + username + "," + (if baseDN.Some? then baseDN.value else DefaultUserBase)
  }

  /** Three components joined by commas make a DN. */
  lemma ThreeRdns(r1: string, r2: string, r3: string)
    requires Rdn(r1) && Rdn(r2) && Rdn(r3)
    ensures ClientDnShape(r1 + "," + (r2 + "," + r3))
  {
    ClientDnCons(r2, r3);
    ClientDnCons(r1, r2 + "," + r3);
  }

  /** Letters on both sides of `=` make a component. */
  lemma PlainRdn(attr: string, value: string)
    requires attr != "" && AllLetters(attr) && value != "" && AllLetters(value)
    ensures Rdn(Component(attr, value))
  {
    assert AttrName(attr);
    assert RdnValue(value);
    RdnOf(attr, value);
  }

  lemma DefaultUserBaseValid()
    ensures ClientDnShape(DefaultUserBase)
  {
    PlainRdn("ou", "users");
    PlainRdn("dc", "company");
    PlainRdn("dc", "local");
    ThreeRdns(Component("ou", "users"), Component("dc", "company"), Component("dc", "local"));
  }

  /** A generated DN passes the DN check whenever the username is a valid
      component value and the base (given or default) passes it. */
  lemma GenerateUserDNValid(username: string, baseDN: Option<string>)
    requires RdnValue(username)
    requires baseDN.Some? ==> ClientDnShape(baseDN.value)
    ensures ClientDnShape(GenerateUserDN(username, baseDN))
  {
    if baseDN.None? { DefaultUserBaseValid(); }
    var t := "uid=" + username;
    assert t[..3] == "uid" && t[4..] == username;
    RdnAt(t, 3);
    ClientDnCons(t, if baseDN.Some? then baseDN.value else DefaultUserBase);
  }
}
