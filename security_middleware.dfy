/**
 * The security middleware: the server-side DN check, the recursive
 * sanitiser of request objects, the CSRF-token and content-type gates, the
 * suspicious-activity detector and the common input validator.  The HTML
 * sanitiser, `JSON.stringify` and the `validator` library's `isEmail` and
 * `isAlphanumeric` are parameters.
 */
module SecurityMiddleware {
  import opened JsText
  import opened Patterns
  import opened CheckList
  import opened JsValues

  /** The answer of a gate: let the request through, or refuse it. */
  datatype Verdict = Pass | Reject(status: int, error: string)

  // ---------------------------------------------------------------------
  // isValidLDAPDN

  const DangerousChars: seq<char> := ['<', '>', '"', '\'', '&', '\0', '\n', '\r']

  predicate NoDangerous(s: string) {
    forall k :: 0 <= k < |s| ==> s[k] !in DangerousChars
  }

  /** The server's DN check: a non-empty string of at most 500 characters
      matching the DN pattern and holding none of the dangerous characters. */
  predicate IsValidLdapDn(dn: Json) {
    && dn.JStr? && dn.s != ""
    && |dn.s| <= 500
    && DnShape(dn.s)
    && NoDangerous(dn.s)
  }

  /** Only non-empty strings of at most 500 characters pass, and each
      starts with `letters=` and one more character. */
  lemma IsValidLdapDnBounds(dn: Json)
    requires IsValidLdapDn(dn)
    ensures dn.JStr? && 0 < |dn.s| <= 500 && LeadingAttr(dn.s)
  {
    DnShapeLeadingAttr(dn.s);
  }

  /** Because `\n` and `\r` are dangerous, on a string without the two
      Unicode separators the check reduces to: non-empty, at most 500
      characters, a leading `letters=` with a character after it, and
      nothing dangerous. */
  lemma IsValidLdapDnIff(s: string)
    requires forall k :: 0 <= k < |s| ==> s[k] != '\U{2028}' && s[k] != '\U{2029}'
    ensures IsValidLdapDn(JStr(s)) <==> 0 < |s| <= 500 && LeadingAttr(s) && NoDangerous(s)
  {
    if NoDangerous(s) {
      assert NoLineTerminator(s) by {
        forall k | 0 <= k < |s| ensures !IsLineTerminator(s[k]) {
          assert s[k] != '\n' && s[k] != '\r';
        }
      }
      DnShapeWithoutTerminators(s);
    }
  }

  // ---------------------------------------------------------------------
  // sanitizeObject

  const MaxStringLength := 10000

  /** `Object.entries` of an object or an array: an array's entries are
      keyed by the decimal indices. */
  function Entries(v: Json): (es: seq<(string, Json)>)
    requires v.JObj? || v.JArr?
    ensures v.JObj? ==> es == v.fields
    ensures v.JArr? ==> |es| == |v.items| && forall i :: 0 <= i < |es| ==> es[i] == (NatToString(i), v.items[i])
  {
    if v.JObj? then v.fields
    else seq(|v.items|, i requires 0 <= i < |v.items| => (NatToString(i), v.items[i]))
  }

  /** A string value after sanitising: the sanitiser's output, trimmed, cut
      to its first 10000 characters. */
  function CleanString(s: string, sanitizeHtml: string -> string): (r: string)
    ensures |r| <= MaxStringLength
    ensures r <= Trim(sanitizeHtml(s))
    ensures |Trim(sanitizeHtml(s))| <= MaxStringLength ==> r == Trim(sanitizeHtml(s)) && IsTrimmed(r)
  {
    var t := Trim(sanitizeHtml(s));
    if |t| > MaxStringLength then t[..MaxStringLength] else t
  }

  /** A sanitised value: a cleaned string, a new plain object (its own
      entries in insertion order and its prototype), or a copied `null`,
      boolean or number. */
  datatype Clean =
    | CStr(s: string)
    | CObj(own: seq<(string, Clean)>, proto: Proto)
    | CCopy(v: Json)

  /** The prototype of a new plain object: `Object.prototype` until an
      assignment to `__proto__` replaces it by `null` or by an object. */
  datatype Proto = ObjectPrototype | NullPrototype | Inherits(parent: Clean)

  /** `sanitized[key] = value` on a plain object: the inherited `__proto__`
      accessor makes an object or `null` the prototype and ignores any other
      value; every other key becomes an own entry (the keys of one JSON
      object are distinct, so a key is never written twice). */
  function Assign(obj: (seq<(string, Clean)>, Proto), key: string, value: Clean): (seq<(string, Clean)>, Proto) {
    if key == "__proto__" then
      if value.CObj? then (obj.0, Inherits(value))
      else if value == CCopy(JNull) then (obj.0, NullPrototype)
      else obj
    else (obj.0 + [(key, value)], obj.1)
  }

  /** What one entry's value becomes: strings are cleaned, objects and
      arrays (both non-null objects) are sanitised into plain objects, every
      other value is copied. */
  function SanitizeValue(v: Json, sanitizeHtml: string -> string): Clean
    decreases v, 2, 0
  {
    match v
    case JStr(s) => CStr(CleanString(s, sanitizeHtml))
    case JObj(_) => SanitizeObject(v, sanitizeHtml)
    case JArr(_) => SanitizeObject(v, sanitizeHtml)
    case _ => CCopy(v)
  }

  /** `sanitizeObject`: a new plain object, assigned the first `n` entries
      of `v` in order, each value sanitised. */
  function Assigned(v: Json, n: nat, sanitizeHtml: string -> string): (seq<(string, Clean)>, Proto)
    requires v.JObj? || v.JArr?
    requires n <= |Entries(v)|
    decreases v, 0, n
  {
    if n == 0 then ([], ObjectPrototype)
    else Assign(Assigned(v, n - 1, sanitizeHtml), Entries(v)[n - 1].0, SanitizeValue(EntryValue(v, n - 1), sanitizeHtml))
  }

  /** `sanitizeObject`: the new object after all entries of `v`. */
  function SanitizeObject(v: Json, sanitizeHtml: string -> string): Clean
    requires v.JObj? || v.JArr?
    decreases v, 1, 0
  {
    var r := Assigned(v, |Entries(v)|, sanitizeHtml);
    CObj(r.0, r.1)
  }

  /** The value of the `i`-th entry, smaller than `v` itself. */
  function EntryValue(v: Json, i: nat): (r: Json)
    requires v.JObj? || v.JArr?
    requires i < |Entries(v)|
    ensures r == Entries(v)[i].1 && r < v
  {
    if v.JObj? then v.fields[i].1 else v.items[i]
  }

  /** `sanitizeObject` as the source runs it: a loop over the entries that
      assigns each key into a new object, recursing into nested objects. */
  method SanitizeObjectLoop(v: Json, sanitizeHtml: string -> string) returns (r: Clean)
    requires v.JObj? || v.JArr?
    ensures r == SanitizeObject(v, sanitizeHtml)
    decreases v
  {
    var es := Entries(v);
    var own: seq<(string, Clean)> := [];
    var proto := ObjectPrototype;
    for i := 0 to |es|
      invariant (own, proto) == Assigned(v, i, sanitizeHtml)
    {
      var value := EntryValue(v, i);
      var out: Clean;
      if value.JStr? {
        var t := Trim(sanitizeHtml(value.s));
        if |t| > MaxStringLength {
          t := t[..MaxStringLength];
        }
        out := CStr(t);
      } else if value.JObj? || value.JArr? {
        out := SanitizeObjectLoop(value, sanitizeHtml);
      } else {
        out := CCopy(value);
      }
      if es[i].0 == "__proto__" {
        if out.CObj? {
          proto := Inherits(out);
        } else if out == CCopy(JNull) {
          proto := NullPrototype;
        }
      } else {
        own := own + [(es[i].0, out)];
      }
    }
    r := CObj(own, proto);
  }

  /** The first own entry called `k`. */
  function FindOwn(own: seq<(string, Clean)>, k: string): Option<Clean> {
    if own == [] then None
    else if own[0].0 == k then Some(own[0].1)
    else FindOwn(own[1..], k)
  }

  /** Reading property `k` of a sanitised object: its own entry, else the
      entry found along its prototype chain of sanitised objects (the
      methods of `Object.prototype` are not modelled). */
  function Lookup(c: Clean, k: string): Option<Clean>
    requires c.CObj?
    decreases c
  {
    var mine := FindOwn(c.own, k);
    if mine.Some? then mine
    else if c.proto.Inherits? && c.proto.parent.CObj? then Lookup(c.proto.parent, k)
    else None
  }

  lemma {:induction false} FindOwnSnoc(own: seq<(string, Clean)>, key: string, value: Clean, k: string)
    ensures FindOwn(own + [(key, value)], k)
            == if FindOwn(own, k).Some? then FindOwn(own, k) else if key == k then Some(value) else None
    decreases |own|
  {
    if own == [] {
      assert own + [(key, value)] == [(key, value)];
    } else {
      assert (own + [(key, value)])[1..] == own[1..] + [(key, value)];
      FindOwnSnoc(own[1..], key, value, k);
    }
  }

  /** `__proto__` is never an own key of the result. */
  lemma {:induction false} AssignedNoProtoKey(v: Json, n: nat, sanitizeHtml: string -> string)
    requires v.JObj? || v.JArr?
    requires n <= |Entries(v)|
    ensures FindOwn(Assigned(v, n, sanitizeHtml).0, "__proto__") == None
  {
    if n > 0 {
      AssignedNoProtoKey(v, n - 1, sanitizeHtml);
      var key := Entries(v)[n - 1].0;
      if key != "__proto__" {
        FindOwnSnoc(Assigned(v, n - 1, sanitizeHtml).0, key, SanitizeValue(EntryValue(v, n - 1), sanitizeHtml), "__proto__");
      }
    }
  }

  /** A key the input lacks reads nothing from the result's own entries. */
  lemma {:induction false} AssignedAbsent(v: Json, n: nat, sanitizeHtml: string -> string, k: string)
    requires v.JObj? || v.JArr?
    requires n <= |Entries(v)|
    requires forall j :: 0 <= j < n ==> Entries(v)[j].0 != k
    ensures FindOwn(Assigned(v, n, sanitizeHtml).0, k) == None
  {
    if n > 0 {
      AssignedAbsent(v, n - 1, sanitizeHtml, k);
      var key := Entries(v)[n - 1].0;
      if key != "__proto__" {
        FindOwnSnoc(Assigned(v, n - 1, sanitizeHtml).0, key, SanitizeValue(EntryValue(v, n - 1), sanitizeHtml), k);
      }
    }
  }

  /** Any other key reads the sanitised value of its first entry in the
      input. */
  lemma {:induction false} AssignedFirst(v: Json, n: nat, i: nat, sanitizeHtml: string -> string)
    requires v.JObj? || v.JArr?
    requires i < n <= |Entries(v)|
    requires Entries(v)[i].0 != "__proto__"
    requires forall j :: 0 <= j < i ==> Entries(v)[j].0 != Entries(v)[i].0
    ensures FindOwn(Assigned(v, n, sanitizeHtml).0, Entries(v)[i].0) == Some(SanitizeValue(EntryValue(v, i), sanitizeHtml))
  {
    var k := Entries(v)[i].0;
    var key := Entries(v)[n - 1].0;
    var prev := Assigned(v, n - 1, sanitizeHtml).0;
    if n - 1 == i {
      AssignedAbsent(v, i, sanitizeHtml, k);
      FindOwnSnoc(prev, key, SanitizeValue(EntryValue(v, i), sanitizeHtml), k);
    } else {
      AssignedFirst(v, n - 1, i, sanitizeHtml);
      if key != "__proto__" {
        FindOwnSnoc(prev, key, SanitizeValue(EntryValue(v, n - 1), sanitizeHtml), k);
      }
    }
  }

  /** Without a `__proto__` entry the result keeps exactly the input's
      keys, in order, each with its sanitised value, and its prototype is
      `Object.prototype`. */
  lemma {:induction false} AssignedOrdinary(v: Json, n: nat, sanitizeHtml: string -> string)
    requires v.JObj? || v.JArr?
    requires n <= |Entries(v)|
    requires forall j :: 0 <= j < n ==> Entries(v)[j].0 != "__proto__"
    ensures |Assigned(v, n, sanitizeHtml).0| == n
    ensures forall i :: 0 <= i < n ==>
              Assigned(v, n, sanitizeHtml).0[i] == (Entries(v)[i].0, SanitizeValue(EntryValue(v, i), sanitizeHtml))
    ensures Assigned(v, n, sanitizeHtml).1 == ObjectPrototype
  {
    if n > 0 {
      AssignedOrdinary(v, n - 1, sanitizeHtml);
    }
  }

  /** A `__proto__` entry holding a string, a number or a boolean is
      dropped without trace: without one holding an object, an array or
      `null`, the prototype stays `Object.prototype`. */
  lemma {:induction false} AssignedDefaultProto(v: Json, n: nat, sanitizeHtml: string -> string)
    requires v.JObj? || v.JArr?
    requires n <= |Entries(v)|
    requires forall j :: 0 <= j < n && Entries(v)[j].0 == "__proto__" ==> !ObjectOrNull(Entries(v)[j].1)
    ensures Assigned(v, n, sanitizeHtml).1 == ObjectPrototype
  {
    if n > 0 {
      AssignedDefaultProto(v, n - 1, sanitizeHtml);
    }
  }

  /** The prototype comes from the last `__proto__` entry holding an
      object, an array or `null`. */
  lemma {:induction false} AssignedLastProto(v: Json, n: nat, i: nat, sanitizeHtml: string -> string)
    requires v.JObj? || v.JArr?
    requires i < n <= |Entries(v)|
    requires Entries(v)[i].0 == "__proto__" && ObjectOrNull(Entries(v)[i].1)
    requires forall j :: i < j < n && Entries(v)[j].0 == "__proto__" ==> !ObjectOrNull(Entries(v)[j].1)
    ensures Assigned(v, n, sanitizeHtml).1
            == if Entries(v)[i].1.JNull? then NullPrototype else Inherits(SanitizeValue(EntryValue(v, i), sanitizeHtml))
  {
    if n > i + 1 {
      AssignedLastProto(v, n - 1, i, sanitizeHtml);
    } else {
      var x := EntryValue(v, i);
      if x.JObj? || x.JArr? {
        assert SanitizeValue(x, sanitizeHtml).CObj?;
      }
    }
  }

  /** The values the `__proto__` accessor accepts: objects, arrays, `null`. */
  predicate ObjectOrNull(v: Json) {
    v.JObj? || v.JArr? || v.JNull?
  }

  /** A JSON body `{"__proto__": {"dn": "x"}}` gives an object with no own
      key whose `dn` still reads the cleaned `"x"`, through its prototype;
      `{"__proto__": "x"}` gives an empty object. */
  lemma ProtoBodyExample(sanitizeHtml: string -> string)
    ensures var r := SanitizeObject(JObj([("__proto__", JObj([("dn", JStr("x"))]))]), sanitizeHtml);
            r.own == [] && Lookup(r, "dn") == Some(CStr(CleanString("x", sanitizeHtml)))
    ensures SanitizeObject(JObj([("__proto__", JStr("x"))]), sanitizeHtml) == CObj([], ObjectPrototype)
  {
    var inner := JObj([("dn", JStr("x"))]);
    var v := JObj([("__proto__", inner)]);
    assert Entries(v)[0] == ("__proto__", inner);
    assert Entries(inner)[0] == ("dn", JStr("x"));
    var p := SanitizeObject(inner, sanitizeHtml);
    assert Assigned(inner, 1, sanitizeHtml)
           == Assign(([], ObjectPrototype), "dn", SanitizeValue(JStr("x"), sanitizeHtml));
    assert p == CObj([("dn", CStr(CleanString("x", sanitizeHtml)))], ObjectPrototype);
    assert SanitizeValue(inner, sanitizeHtml) == p;
    assert Assigned(v, 1, sanitizeHtml) == Assign(([], ObjectPrototype), "__proto__", p);
    assert SanitizeObject(v, sanitizeHtml) == CObj([], Inherits(p));
    assert FindOwn(p.own, "dn") == Some(CStr(CleanString("x", sanitizeHtml)));
    var w := JObj([("__proto__", JStr("x"))]);
    assert Entries(w)[0] == ("__proto__", JStr("x"));
    assert Assigned(w, 1, sanitizeHtml)
           == Assign(([], ObjectPrototype), "__proto__", SanitizeValue(JStr("x"), sanitizeHtml));
  }

  /** Every string anywhere in `c`, prototypes included, has at most `n`
      characters, and every copied value is `null`, a boolean or a number. */
  predicate Bounded(c: Clean, n: nat)
    decreases c
  {
    match c
    case CStr(s) => |s| <= n
    case CObj(own, proto) =>
      (forall i :: 0 <= i < |own| ==> Bounded(own[i].1, n))
      && (proto.Inherits? ==> Bounded(proto.parent, n))
    case CCopy(v) => v.JNull? || v.JBool? || v.JNum?
  }

  /** The sanitised object holds only strings of at most 10000 characters,
      at every level and along its prototypes, and copies only scalars. */
  lemma {:induction false} SanitizeBounded(v: Json, sanitizeHtml: string -> string)
    requires v.JObj? || v.JArr?
    ensures Bounded(SanitizeObject(v, sanitizeHtml), MaxStringLength)
    decreases v, 1, 0
  {
    AssignedBounded(v, |Entries(v)|, sanitizeHtml);
  }

  lemma {:induction false} AssignedBounded(v: Json, n: nat, sanitizeHtml: string -> string)
    requires v.JObj? || v.JArr?
    requires n <= |Entries(v)|
    ensures forall i :: 0 <= i < |Assigned(v, n, sanitizeHtml).0| ==> Bounded(Assigned(v, n, sanitizeHtml).0[i].1, MaxStringLength)
    ensures Assigned(v, n, sanitizeHtml).1.Inherits? ==> Bounded(Assigned(v, n, sanitizeHtml).1.parent, MaxStringLength)
    decreases v, 0, n
  {
    if n > 0 {
      AssignedBounded(v, n - 1, sanitizeHtml);
      var x := EntryValue(v, n - 1);
      if x.JObj? || x.JArr? {
        SanitizeBounded(x, sanitizeHtml);
      }
      assert Bounded(SanitizeValue(x, sanitizeHtml), MaxStringLength);
    }
  }

  // ---------------------------------------------------------------------
  // validateCSRF and validateContentType

  /** `validateCSRF`: a POST, PUT, DELETE or PATCH needs a truthy `_csrf`
      field or a non-empty `x-csrf-token` header; the token is not compared
      with anything. */
  function ValidateCsrf(verb: string, bodyToken: Json, headerToken: string): (r: Verdict)
    ensures r.Reject? <==> verb in ["POST", "PUT", "DELETE", "PATCH"] && !JsonTruthy(bodyToken) && headerToken == ""
    ensures r.Reject? ==> r == Reject(403, "Token CSRF requerido")
  {
    if verb in ["POST", "PUT", "DELETE", "PATCH"] && !(JsonTruthy(bodyToken) || headerToken != "") then
      Reject(403, "Token CSRF requerido")
    else Pass
  }

  /** Any present token is as good as any other. */
  lemma CsrfTokenNotCompared(verb: string, t1: string, t2: string)
    requires t1 != "" && t2 != ""
    ensures ValidateCsrf(verb, JStr(t1), "") == ValidateCsrf(verb, JNull, t2) == Pass
  {
  }

  const AllowedMediaTypes := ["application/json", "application/x-www-form-urlencoded", "multipart/form-data"]

  /** `validateContentType`: a POST, PUT or PATCH whose content type is
      missing or contains none of the allowed media types is refused. */
  function ValidateContentType(verb: string, contentType: string): (r: Verdict)
    ensures r.Reject? <==> verb in ["POST", "PUT", "PATCH"] && (contentType == "" || forall m :: m in AllowedMediaTypes ==> !Contains(contentType, m))
    ensures r.Reject? ==> r.status == 400
  {
    if verb in ["POST", "PUT", "PATCH"]
       && (contentType == ""
           || (!Contains(contentType, "application/json")
               && !Contains(contentType, "application/x-www-form-urlencoded")
               && !Contains(contentType, "multipart/form-data")))
    then Reject(400, "Content-Type inválido")
    else Pass
  }

  /** The media type is looked for anywhere in the header, so a parameter
      or a longer type that contains it passes. */
  lemma ContentTypeSubstring(verb: string, prefix: string, suffix: string)
    ensures ValidateContentType(verb, prefix + "application/json" + suffix) == Pass
  {
    var c := prefix + "application/json" + suffix;
    assert c[|prefix|..|prefix| + |"application/json"|] == "application/json";
    assert OccursAt(c, "application/json", |prefix|);
  }

  // ---------------------------------------------------------------------
  // detectSuspiciousActivity

  const SqlPatterns := ["union select", "drop table", "1=1", "or 1=1"]
  const SuspiciousAgents := ["sqlmap", "nikto", "nmap", "masscan"]

  const XssEntry := "XSS attempt in URL"
  const SqlEntry := "SQL injection attempt"
  const AgentEntry := "Suspicious user agent"

  /** Some listed pattern occurs in `text`. */
  predicate AnyIn(text: string, patterns: seq<string>) {
    exists j :: 0 <= j < |patterns| && Contains(text, patterns[j])
  }

  predicate XssInUrl(url: string) {
    Contains(url, "<script") || Contains(url, "javascript:")
  }

  /** `detectSuspiciousActivity`: one entry per category that fires (the
      URL as written, the serialised body and the User-Agent lower-cased),
      and a 403 only in production.  `bodyText` is `JSON.stringify` of the
      body (or of `{}`). */
  method DetectSuspiciousActivity(url: string, bodyText: string, userAgent: string, production: bool)
    returns (suspicious: seq<string>, verdict: Verdict)
    ensures (XssEntry in suspicious) <==> XssInUrl(url)
    ensures (SqlEntry in suspicious) <==> AnyIn(ToLower(bodyText), SqlPatterns)
    ensures (AgentEntry in suspicious) <==> AnyIn(ToLower(userAgent), SuspiciousAgents)
    ensures forall i :: 0 <= i < |suspicious| ==> suspicious[i] in [XssEntry, SqlEntry, AgentEntry]
    ensures forall i, j :: 0 <= i < j < |suspicious| ==> suspicious[i] != suspicious[j]
    ensures verdict.Reject? <==> production && |suspicious| > 0
    ensures verdict.Reject? ==> verdict.status == 403
  {
    suspicious := [];
    if Contains(url, "<script") || Contains(url, "javascript:") {
      suspicious := suspicious + [XssEntry];
    }
    var bodyStr := ToLower(bodyText);
    var i := 0;
    while i < |SqlPatterns|
      invariant 0 <= i <= |SqlPatterns|
      invariant forall j :: 0 <= j < i ==> !Contains(bodyStr, SqlPatterns[j])
      invariant SqlEntry !in suspicious
    {
      if Contains(bodyStr, SqlPatterns[i]) {
        suspicious := suspicious + [SqlEntry];
        break;
      }
      i := i + 1;
    }
    var agent := ToLower(userAgent);
    i := 0;
    while i < |SuspiciousAgents|
      invariant 0 <= i <= |SuspiciousAgents|
      invariant forall j :: 0 <= j < i ==> !Contains(agent, SuspiciousAgents[j])
      invariant AgentEntry !in suspicious
    {
      if Contains(agent, SuspiciousAgents[i]) {
        suspicious := suspicious + [AgentEntry];
        break;
      }
      i := i + 1;
    }
    if |suspicious| > 0 && production {
      verdict := Reject(403, "Actividad sospechosa detectada");
    } else {
      verdict := Pass;
    }
  }

  /** `or 1=1` can never be the pattern that fires: `1=1` is inside it. */
  lemma SqlPatternRedundant(text: string)
    ensures AnyIn(text, SqlPatterns) <==> AnyIn(text, SqlPatterns[..3])
  {
    if Contains(text, "or 1=1") {
      assert OccursAt("or 1=1", "1=1", 3);
      ContainsTransitive(text, "or 1=1", "1=1");
      assert SqlPatterns[..3][2] == "1=1";
    }
  }

  /** The URL check is case-sensitive while the body check is not: an
      upper-case `<SCRIPT` in the URL goes unnoticed, an upper-case
      `UNION SELECT` in the body is caught. */
  lemma CaseAsymmetry()
    ensures !XssInUrl("<SCRIPT")
    ensures AnyIn(ToLower("UNION SELECT"), SqlPatterns)
  {
    assert !OccursAt("<SCRIPT", "<script", 0) by { assert "<SCRIPT"[1] != "<script"[1]; }
    assert ToLower("UNION SELECT") == "union select";
    assert OccursAt("union select", SqlPatterns[0], 0);
  }

  // ---------------------------------------------------------------------
  // validateUserInput

  /** The checks of `validateUserInput` that can fail, in the order they run. */
  datatype InputError = InvalidEmail | UsernameChars | UsernameLength | PasswordLength | PasswordComplexity | InvalidDn

  /** The message each failed check reports. */
  function Message(e: InputError): string {
    match e
    case InvalidEmail => "Email inválido"
    case UsernameChars => "El nombre de usuario solo puede contener letras, números, puntos, guiones y guiones bajos"
    case UsernameLength => "El nombre de usuario debe tener entre 3 y 50 caracteres"
    case PasswordLength => "La contraseña debe tener al menos 8 caracteres"
    case PasswordComplexity => "La contraseña debe contener al menos una letra minúscula, una mayúscula y un número"
    case InvalidDn => "DN LDAP inválido"
  }

  /** `username.replace(/[._-]/g, '')`. */
  function StripSeparators(s: string): (r: string)
    ensures |r| <= |s|
  {
    if s == [] then []
    else if s[0] == '.' || s[0] == '_' || s[0] == '-' then StripSeparators(s[1..])
    else [s[0]] + StripSeparators(s[1..])
  }

  /** Exactly the separators `.`, `_` and `-` are dropped, the other
      characters are kept. */
  lemma {:induction false} StripSeparatorsKeeps(s: string)
    ensures forall c :: c in StripSeparators(s) <==> c in s && c != '.' && c != '_' && c != '-'
  {
    if s != [] {
      StripSeparatorsKeeps(s[1..]);
      assert s == [s[0]] + s[1..];
    }
  }

  /** The two presentation selectors, U+FE0E and U+FE0F. */
  predicate IsVariationSelector(c: char) {
    c == '\U{FE0E}' || c == '\U{FE0F}'
  }

  /** The length `validator.isLength` compares with its bounds: the number
      of characters, a surrogate pair counting once (as one character here)
      and the presentation selectors not at all. */
  function ValidatorLength(s: string): (n: nat)
    ensures n <= |s|
  {
    if s == [] then 0
    else (if IsVariationSelector(s[0]) then 0 else 1) + ValidatorLength(s[1..])
  }

  /** The measured length is the number of characters that are not
      presentation selectors: appending a selector leaves it unchanged, and
      without selectors it is the plain length. */
  lemma {:induction false} ValidatorLengthAppend(s: string, c: char)
    ensures ValidatorLength(s + [c]) == ValidatorLength(s) + (if IsVariationSelector(c) then 0 else 1)
    decreases |s|
  {
    if s == [] {
      assert s + [c] == [c];
    } else {
      assert (s + [c])[1..] == s[1..] + [c];
      ValidatorLengthAppend(s[1..], c);
    }
  }

  lemma {:induction false} ValidatorLengthPlain(s: string)
    requires forall k :: 0 <= k < |s| ==> !IsVariationSelector(s[k])
    ensures ValidatorLength(s) == |s|
    decreases |s|
  {
    if s != [] {
      ValidatorLengthPlain(s[1..]);
    }
  }

  /** `Abcdef1` followed by U+FE0F has eight characters but measures seven,
      so the password length check fails on it. */
  lemma SelectorShortensPassword()
    ensures |"Abcdef1\U{FE0F}"| == 8 && ValidatorLength("Abcdef1\U{FE0F}") == 7
  {
    var s := "Abcdef1";
    ValidatorLengthPlain(s);
    ValidatorLengthAppend(s, '\U{FE0F}');
    assert s + ['\U{FE0F}'] == "Abcdef1\U{FE0F}";
  }

  /** The DN the validator looks at: the body's `dn` when truthy, else the
      route parameter. */
  function DnOf(bodyDn: Json, paramsDn: string): Json {
    if JsonTruthy(bodyDn) then bodyDn else JStr(paramsDn)
  }

  /** Which checks of `validateUserInput` failed. */
  datatype Failures = Failures(email: bool, usernameChars: bool, usernameLength: bool,
                               passwordLength: bool, passwordComplexity: bool, dn: bool)

  /** The checks on the request: each one only for a present field, the
      username and password checks both made when their field is present. */
  function FailuresOf(email: string, username: string, password: string, bodyDn: Json, paramsDn: string,
                      isEmail: string -> bool, isAlphanumeric: string -> bool): Failures
  {
    Failures(email != "" && !isEmail(email),
             username != "" && !isAlphanumeric(StripSeparators(username)),
             username != "" && !(3 <= ValidatorLength(username) <= 50),
             password != "" && ValidatorLength(password) < 8,
             password != "" && !Complexity(password),
             (JsonTruthy(bodyDn) || paramsDn != "") && !IsValidLdapDn(DnOf(bodyDn, paramsDn)))
  }

  /** The checks in the order they run, each with its outcome. */
  function InputChecks(f: Failures): seq<(bool, InputError)> {
    [(f.email, InvalidEmail), (f.usernameChars, UsernameChars), (f.usernameLength, UsernameLength),
     (f.passwordLength, PasswordLength), (f.passwordComplexity, PasswordComplexity), (f.dn, InvalidDn)]
  }

  /** The position of each check in the order they run. */
  function Rank(e: InputError): (i: nat)
    ensures i < 6
  {
    match e
    case InvalidEmail => 0
    case UsernameChars => 1
    case UsernameLength => 2
    case PasswordLength => 3
    case PasswordComplexity => 4
    case InvalidDn => 5
  }

  /** Whether the check reporting `e` failed. */
  function Failed(f: Failures, e: InputError): bool {
    match e
    case InvalidEmail => f.email
    case UsernameChars => f.usernameChars
    case UsernameLength => f.usernameLength
    case PasswordLength => f.passwordLength
    case PasswordComplexity => f.passwordComplexity
    case InvalidDn => f.dn
  }

  /** The error list of all checks. */
  function ErrorList(f: Failures): seq<InputError> {
    Reported(InputChecks(f))
  }

  /** Each error is listed exactly when its check failed, in check order
      and at most once. */
  lemma ErrorListSpec(f: Failures)
    ensures forall e :: e in ErrorList(f) <==> Failed(f, e)
    ensures forall i, j :: 0 <= i < j < |ErrorList(f)| ==> Rank(ErrorList(f)[i]) < Rank(ErrorList(f)[j])
  {
    forall e ensures e in ErrorList(f) <==> Failed(f, e) {
      CollectMembers(InputChecks(f), 6, e);
      assert InputChecks(f)[Rank(e)] == (Failed(f, e), e);
    }
    forall i | 0 <= i < 6 ensures Rank(InputChecks(f)[i].1) == i {
    }
    CollectOrdered(InputChecks(f), 6, Rank);
  }

  /** The list is empty exactly when every check passed. */
  lemma ErrorListEmpty(f: Failures)
    ensures ErrorList(f) == [] <==> f == Failures(false, false, false, false, false, false)
  {
    var checks := InputChecks(f);
    ReportedEmpty(checks);
    assert checks[0].0 == f.email && checks[1].0 == f.usernameChars && checks[2].0 == f.usernameLength;
    assert checks[3].0 == f.passwordLength && checks[4].0 == f.passwordComplexity && checks[5].0 == f.dn;
  }

  /** The username checks of `validateUserInput`: characters, then length. */
  method PushUsernameErrors(errors: seq<InputError>, username: string, isAlphanumeric: string -> bool)
    returns (out: seq<InputError>)
    ensures out == errors + (if username != "" && !isAlphanumeric(StripSeparators(username)) then [UsernameChars] else [])
                          + (if username != "" && !(3 <= ValidatorLength(username) <= 50) then [UsernameLength] else [])
  {
    out := errors;
    if username != "" {
      if !isAlphanumeric(StripSeparators(username)) {
        out := out + [UsernameChars];
      }
      if !(3 <= ValidatorLength(username) <= 50) {
        out := out + [UsernameLength];
      }
    }
  }

  /** The password checks of `validateUserInput`: length, then complexity. */
  method PushPasswordErrors(errors: seq<InputError>, password: string) returns (out: seq<InputError>)
    ensures out == errors + (if password != "" && ValidatorLength(password) < 8 then [PasswordLength] else [])
                          + (if password != "" && !Complexity(password) then [PasswordComplexity] else [])
  {
    out := errors;
    if password != "" {
      if ValidatorLength(password) < 8 {
        out := out + [PasswordLength];
      }
      if !Complexity(password) {
        out := out + [PasswordComplexity];
      }
    }
  }

  /** The DN check of `validateUserInput`, made when a DN is given. */
  method PushDnError(errors: seq<InputError>, bodyDn: Json, paramsDn: string) returns (out: seq<InputError>)
    ensures out == errors + (if (JsonTruthy(bodyDn) || paramsDn != "") && !IsValidLdapDn(DnOf(bodyDn, paramsDn)) then [InvalidDn] else [])
  {
    out := errors;
    if JsonTruthy(bodyDn) || paramsDn != "" {
      var dn := DnOf(bodyDn, paramsDn);
      if !IsValidLdapDn(dn) {
        out := out + [InvalidDn];
      }
    }
  }

  /** `validateUserInput`: the errors of the present fields, in the order
      of the checks, and a 400 exactly when there is one. */
  method ValidateUserInput(email: string, username: string, password: string, bodyDn: Json, paramsDn: string,
                           isEmail: string -> bool, isAlphanumeric: string -> bool)
    returns (errors: seq<InputError>, verdict: Verdict)
    ensures errors == ErrorList(FailuresOf(email, username, password, bodyDn, paramsDn, isEmail, isAlphanumeric))
    ensures verdict.Reject? <==> errors != []
    ensures verdict.Reject? ==> verdict == Reject(400, "Datos de entrada inválidos")
  {
    ghost var f := FailuresOf(email, username, password, bodyDn, paramsDn, isEmail, isAlphanumeric);
    ghost var cs := InputChecks(f);
    errors := [];
    if email != "" && !isEmail(email) {
      errors := errors + [InvalidEmail];
    }
    assert errors == Collect(cs, 1) by { assert cs[0] == (f.email, InvalidEmail); }
    errors := PushUsernameErrors(errors, username, isAlphanumeric);
    assert errors == Collect(cs, 3) by {
      assert cs[1] == (f.usernameChars, UsernameChars) && cs[2] == (f.usernameLength, UsernameLength);
    }
    errors := PushPasswordErrors(errors, password);
    assert errors == Collect(cs, 5) by {
      assert cs[3] == (f.passwordLength, PasswordLength) && cs[4] == (f.passwordComplexity, PasswordComplexity);
    }
    errors := PushDnError(errors, bodyDn, paramsDn);
    assert errors == Collect(cs, 6) by { assert cs[5] == (f.dn, InvalidDn); }
    if |errors| > 0 {
      verdict := Reject(400, "Datos de entrada inválidos");
    } else {
      verdict := Pass;
    }
  }
}
