/**
 * How the checks and helpers of the different files relate: the server
 * routes, the security middleware, the browser's form validator and the
 * admin page each decide usernames, passwords and DNs on their own, and
 * the DNs one of them builds are read back by the helpers of another.
 */
module Agreement {
  import opened JsText
  import opened JsValues
  import opened Patterns
  import Dashboard
  import SecurityMiddleware
  import Validations
  import AdminUtils
  import LdapUtils

  // ---------------------------------------------------------------------
  // Usernames

  /** A username the browser accepts passes both username checks of the
      user-creation route. */
  lemma ClientUsernamePassesServer(d: Dashboard.UserData)
    requires Validations.IsValidUsername(d.username)
    ensures !Dashboard.UserDataFailuresOf(d).usernameShort
    ensures !Dashboard.UserDataFailuresOf(d).usernameChars
  {
    var s := d.username;
    assert Validations.NameChar(s[0]) && Validations.NameChar(s[|s| - 1]);
    TrimOfTrimmed(s);
    forall k | 0 <= k < |s| ensures Dashboard.UsernameChar(s[k]) {
      assert Validations.NameChar(s[k]);
    }
  }

  /** The other way round fails: a name of three or more characters
      with a dot passes the route and is refused by the browser. */
  lemma DottedUsernameServerOnly(d: Dashboard.UserData, k: nat)
    requires Dashboard.UsernameCharsOk(d.username) && |d.username| >= 3
    requires k < |d.username| && d.username[k] == '.'
    ensures !Dashboard.UserDataFailuresOf(d).usernameShort
    ensures !Dashboard.UserDataFailuresOf(d).usernameChars
    ensures !Validations.IsValidUsername(d.username)
  {
    var s := d.username;
    assert Dashboard.UsernameChar(s[0]) && Dashboard.UsernameChar(s[|s| - 1]);
    TrimOfTrimmed(s);
    Validations.UsernameRejectsDot(s, k);
  }

  /** The administrator's own name, `ana.martinez`, is such a name. */
  lemma AdminNameServerOnly(d: Dashboard.UserData)
    requires d.username == "ana.martinez"
    ensures !Dashboard.UserDataFailuresOf(d).usernameChars
    ensures !Validations.IsValidUsername(d.username)
  {
    assert Dashboard.UsernameCharsOk(d.username);
    DottedUsernameServerOnly(d, 3);
  }

  // ---------------------------------------------------------------------
  // Passwords

  /** The route asks for six characters and the middleware for eight: a
      complex password of six or seven characters passes the route's
      checks and fails the middleware's length check. */
  lemma PasswordMinimumsDisagree(d: Dashboard.UserData, email: string, username: string,
                                 bodyDn: Json, paramsDn: string,
                                 isEmail: string -> bool, isAlphanumeric: string -> bool)
    requires 6 <= |d.password| < 8 && Complexity(d.password)
    ensures !Dashboard.UserDataFailuresOf(d).passwordShort
    ensures !Dashboard.UserDataFailuresOf(d).passwordWeak
    ensures SecurityMiddleware.FailuresOf(email, username, d.password, bodyDn, paramsDn,
                                          isEmail, isAlphanumeric).passwordLength
  {
  }

  /** Such passwords exist: `Abc123` is one. */
  lemma ShortComplexPassword()
    ensures 6 <= |"Abc123"| < 8 && Complexity("Abc123")
  {
    var s := "Abc123";
    assert NoLineTerminator(s);
    ComplexityOneLine(s);
    assert InClass(s[1], Lower) && InClass(s[0], Upper) && InClass(s[3], Digit);
  }

  // ---------------------------------------------------------------------
  // DNs

  /** The server's DN check is the admin page's check plus the ban on
      dangerous characters. */
  lemma ServerDnIsAdminDnSafe(dn: Json)
    ensures SecurityMiddleware.IsValidLdapDn(dn) <==>
              AdminUtils.IsValidDN(dn) && SecurityMiddleware.NoDangerous(dn.s)
  {
  }

  /** A DN whose value holds `<` passes the admin page and the form
      validator and is refused by the server. */
  lemma AngleDnClientOnly(attr: string, v: string, k: nat)
    requires Validations.AttrName(attr) && AllLetters(attr)
    requires Validations.RdnValue(v) && NoLineTerminator(v)
    requires k < |v| && v[k] == '<'
    requires |attr| + 1 + |v| <= 500
    ensures AdminUtils.IsValidDN(JStr(attr + "=" + v))
    ensures Validations.ClientDnShape(attr + "=" + v)
    ensures !SecurityMiddleware.IsValidLdapDn(JStr(attr + "=" + v))
  {
    var s := attr + "=" + v;
    ComponentOf(attr, v);
    Validations.RdnOf(attr, v);
    assert s[|attr| + 1 + k] == '<';
  }

  /** `cn=<b>` is one. */
  lemma AngleDnExample()
    ensures AdminUtils.IsValidDN(JStr("cn=<b>"))
    ensures Validations.ClientDnShape("cn=<b>")
    ensures !SecurityMiddleware.IsValidLdapDn(JStr("cn=<b>"))
  {
    var attr, v := "cn", "<b>";
    assert attr + "=" + v == "cn=<b>";
    AngleDnClientOnly(attr, v, 0);
  }

  /** A DN the form validator accepts starts with a letter. */
  lemma ClientDnStartsWithLetter(s: string)
    requires Validations.ClientDnShape(s)
    ensures |s| > 0 && IsAsciiLetter(s[0])
  {
    if Validations.Rdn(s) {
      var e :| 0 < e < |s| && s[e] == '=' && Validations.AttrName(s[..e]) && Validations.RdnValue(s[e + 1..]);
      assert s[0] == s[..e][0];
    } else {
      var k :| 0 < k < |s| && s[k] == ',' && Validations.Rdn(s[..k]) && Validations.ClientDnShape(s[k + 1..]);
      var e :| 0 < e < k && s[..k][e] == '=' && Validations.AttrName(s[..k][..e]) && Validations.RdnValue(s[..k][e + 1..]);
      assert s[0] == s[..k][..e][0];
    }
  }

  /** In a DN the form validator accepts, a letter follows every comma. */
  lemma {:induction false} ClientDnLetterAfterComma(s: string, k: nat)
    requires Validations.ClientDnShape(s) && k < |s| && s[k] == ','
    ensures k + 1 < |s| && IsAsciiLetter(s[k + 1])
    decreases |s|
  {
    assert ',' in s;
    var i := IndexOf(s, ',');
    Validations.ClientDnSplitsAtFirst(s);
    var rest := s[i + 1..];
    assert s[..i][..i] == s[..i];
    if k == i {
      ClientDnStartsWithLetter(rest);
      assert s[k + 1] == rest[0];
    } else {
      assert k > i;
      assert rest[k - i - 1] == s[k];
      ClientDnLetterAfterComma(rest, k - i - 1);
      assert s[k + 1] == rest[k - i];
    }
  }

  /** `attr=v` is one component of the server's pattern. */
  lemma ComponentOf(attr: string, v: string)
    requires attr != "" && AllLetters(attr) && v != "" && NoLineTerminator(v)
    ensures DnComponent(attr + "=" + v)
  {
    var c := attr + "=" + v;
    assert c[..|attr|] == attr && c[|attr| + 1..] == v;
  }

  /** `, ` and a component continue a DN. */
  lemma ContinuationOf(c: string)
    requires DnComponent(c)
    ensures DnContinuation(", " + c)
  {
    var t := ", " + c;
    assert t[2..] == c && AllSpace(t[1..2]);
  }

  /** A component and a continuation make a DN. */
  lemma ShapeJoin(first: string, t: string)
    requires DnComponent(first) && DnContinuation(t)
    ensures DnShape(first + t)
  {
    var s := first + t;
    assert s[..|first|] == first && s[|first|..] == t;
  }

  /** Two components joined by a comma and a space match the server's
      pattern. */
  lemma SpacedDnShape(first: string, c: string)
    requires DnComponent(first) && DnComponent(c)
    ensures DnShape(first + (", " + c))
  {
    ContinuationOf(c);
    ShapeJoin(first, ", " + c);
  }

  /** Joining safe pieces with `, ` keeps them safe. */
  lemma SpacedDnSafe(first: string, c: string)
    requires SecurityMiddleware.NoDangerous(first) && SecurityMiddleware.NoDangerous(c)
    ensures SecurityMiddleware.NoDangerous(first + (", " + c))
  {
    var s := first + (", " + c);
    var n := |first|;
    forall k | 0 <= k < |s| ensures s[k] !in SecurityMiddleware.DangerousChars {
      if k < n { assert s[k] == first[k]; }
      else if k > n + 1 { assert s[k] == c[k - n - 2]; }
    }
  }

  /** A space after a comma, which the server's pattern allows with `\s*`,
      is refused by the form validator. */
  lemma SpacedDnServerOnly(first: string, c: string)
    requires DnComponent(first) && SecurityMiddleware.NoDangerous(first)
    requires DnComponent(c) && SecurityMiddleware.NoDangerous(c)
    requires |first| + 2 + |c| <= 500
    ensures SecurityMiddleware.IsValidLdapDn(JStr(first + (", " + c)))
    ensures !Validations.ClientDnShape(first + (", " + c))
  {
    var s := first + (", " + c);
    SpacedDnShape(first, c);
    SpacedDnSafe(first, c);
    if Validations.ClientDnShape(s) {
      ClientDnLetterAfterComma(s, |first|);
      assert false;
    }
  }

  // ---------------------------------------------------------------------
  // Icons

  /** The two icon tables agree on every type but `error`, which the form
      validator's table lacks and so shows as information. */
  lemma IconTablesDifferOnError(kind: string)
    ensures kind != "error" ==> Validations.ToastIcon(kind) == AdminUtils.IconForType(kind)
    ensures Validations.ToastIcon("error") == "info-circle" != AdminUtils.IconForType("error")
  {
  }

  // ---------------------------------------------------------------------
  // DNs built in one place and read in another

  /** The username `extractUsername` reads from a generated DN is the one
      it was generated from. */
  lemma GeneratedUserRoundTrip(username: string, baseDN: Option<string>)
    requires username != "" && ',' !in username
    ensures LdapUtils.ExtractUsername(Validations.GenerateUserDN(username, baseDN)) == username
  {
    var base := if baseDN.Some? then baseDN.value else Validations.DefaultUserBase;
    var attr := "uid";
    assert ToLower(attr) == "uid" by { assert ToLower(attr)[0] == 'u'; }
    assert Validations.GenerateUserDN(username, baseDN) == attr + "=" + username + ("," + base);
    LdapUtils.ExtractUsernameOf(attr, username, "," + base);
  }

  /** A name the user-creation route accepts has neither a comma nor an
      equals sign. */
  lemma CreatedNameClean(v: string, k: nat)
    requires Dashboard.UsernameCharsOk(v) && k < |v|
    ensures v[k] != ',' && v[k] != '=' && v[k] !in SecurityMiddleware.DangerousChars
  {
    assert Dashboard.UsernameChar(v[k]);
  }

  /** The page shows the trimmed username for a user the route created. */
  lemma NewUserNameRoundTrip(username: string)
    requires Dashboard.UsernameCharsOk(Trim(username))
    ensures LdapUtils.ExtractUsername(Dashboard.NewUserDN(username)) == Trim(username)
  {
    var v := Trim(username);
    if ',' in v {
      CreatedNameClean(v, IndexOf(v, ','));
    }
    var attr := "cn";
    assert ToLower(attr) == "cn" by { assert ToLower(attr)[0] == 'c'; }
    assert Dashboard.NewUserDN(username) == attr + "=" + v + ("," + Dashboard.PeopleBase);
    LdapUtils.ExtractUsernameOf(attr, v, "," + Dashboard.PeopleBase);
  }

  /** The people base starts with `ou=people` and a comma. */
  lemma PeopleBaseParts()
    ensures |Dashboard.PeopleBase| == 27
    ensures Dashboard.PeopleBase[..3] == "ou=" && Dashboard.PeopleBase[3] == 'p'
    ensures Dashboard.PeopleBase[3..][..6] == "people" && Dashboard.PeopleBase[3..][6] == ','
  {
  }

  /** Before the `ou=` of the base, a created DN has no match of `ou=`. */
  lemma NoUnitInName(v: string, tail: string, j: nat)
    requires Dashboard.UsernameCharsOk(v)
    requires |tail| >= 4 && tail[..3] == "ou="
    requires j < |v| + 4
    ensures !LdapUtils.OuAt("cn=" + v + "," + tail, j)
  {
    var dn := "cn=" + v + "," + tail;
    var w := ToLower(dn[j..j + 3]);
    if j == 0 {
      assert w[0] == LowerChar(dn[0]) == 'c';
    } else {
      if j + 2 < |v| + 3 {
        assert dn[j + 2] == v[j - 1];
        CreatedNameClean(v, j - 1);
      } else if j + 2 > |v| + 3 {
        assert dn[j + 2] == tail[..3][j + 2 - (|v| + 4)];
      }
      assert dn[j + 2] != '=';
      assert w[2] == LowerChar(dn[j + 2]) != '=';
    }
  }

  /** Under a base that starts with a unit, the unit of a created DN
      is read from the base. */
  lemma CreatedUnit(v: string, tail: string)
    requires Dashboard.UsernameCharsOk(v)
    requires |tail| >= 4 && tail[..3] == "ou=" && tail[3] != ','
    ensures LdapUtils.ExtractOU("cn=" + v + "," + tail) == LdapUtils.UpToComma(tail[3..])
  {
    var dn := "cn=" + v + "," + tail;
    var p := |v| + 4;
    assert dn[p..] == tail;
    forall j | 0 <= j < p ensures !LdapUtils.OuAt(dn, j) {
      NoUnitInName(v, tail, j);
    }
    assert dn[p..p + 3] == tail[..3];
    assert LdapUtils.OuAt(dn, p) by { assert dn[p + 3] == tail[3]; }
    LdapUtils.ExtractOULeftmost(dn);
    assert dn[p + 3..] == tail[3..];
  }

  /** The unit of the people base is `people`. */
  lemma PeopleUnit()
    ensures LdapUtils.UpToComma(Dashboard.PeopleBase[3..]) == "people"
  {
    PeopleBaseParts();
    IndexOfAt(Dashboard.PeopleBase[3..], ',', 6);
  }

  /** The unit the page shows for a user the route created is `people`. */
  lemma NewUserUnit(username: string)
    requires Dashboard.UsernameCharsOk(Trim(username))
    ensures LdapUtils.ExtractOU(Dashboard.NewUserDN(username)) == "people"
  {
    PeopleBaseParts();
    CreatedUnit(Trim(username), Dashboard.PeopleBase);
    PeopleUnit();
  }

  /** No dangerous character and neither Unicode line separator. */
  predicate Safe(s: string) {
    forall k :: 0 <= k < |s| ==> s[k] != '\U{2028}' && s[k] != '\U{2029}' && s[k] !in SecurityMiddleware.DangerousChars
  }

  /** Letters, `=` and `,` are safe. */
  lemma PlainSafe(s: string)
    requires forall k :: 0 <= k < |s| ==> IsAsciiLetter(s[k]) || s[k] == '=' || s[k] == ','
    ensures Safe(s)
  {
  }

  lemma PeopleBaseSafe()
    ensures Safe(Dashboard.PeopleBase)
  {
    PlainSafe(Dashboard.PeopleBase);
  }

  /** `cn=`, a created name, a comma and a safe base make a safe DN. */
  lemma CreatedDnSafe(v: string, tail: string)
    requires Dashboard.UsernameCharsOk(v) && Safe(tail)
    ensures Safe("cn=" + v + "," + tail)
  {
    var dn := "cn=" + v + "," + tail;
    forall k | 0 <= k < |dn|
      ensures dn[k] != '\U{2028}' && dn[k] != '\U{2029}' && dn[k] !in SecurityMiddleware.DangerousChars
    {
      if k < 3 { }
      else if k < 3 + |v| { assert dn[k] == v[k - 3]; CreatedNameClean(v, k - 3); }
      else if k > 3 + |v| { assert dn[k] == tail[k - 4 - |v|]; }
    }
  }

  /** The DN of a user the route created passes the server's DN check
      while its length stays within the 500 characters. */
  lemma NewUserDNPassesServer(username: string)
    requires Dashboard.UsernameCharsOk(Trim(username)) && |Trim(username)| <= 469
    ensures SecurityMiddleware.IsValidLdapDn(JStr(Dashboard.NewUserDN(username)))
  {
    var v := Trim(username);
    var tail := Dashboard.PeopleBase;
    var dn := Dashboard.NewUserDN(username);
    assert dn == "cn=" + v + "," + tail;
    PeopleBaseParts();
    PeopleBaseSafe();
    CreatedDnSafe(v, tail);
    assert dn[..2] == "cn" && dn[2] == '=';
    assert LeadingAttr(dn);
    SecurityMiddleware.IsValidLdapDnIff(dn);
  }
}
