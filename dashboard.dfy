/**
 * The logic of the dashboard routes: the search filter and the page of
 * the user list, the server-side check of the new-user form, the entry of
 * a new user, the changes of a user edit, the member count of a group and
 * the entry and changes of a group create and edit.
 */
module Dashboard {
  import opened JsText
  import opened Patterns
  import opened JsValues
  import opened Directory
  import opened LdapService
  import opened CheckList

  // ---------------------------------------------------------------------
  // Search filter of the user list

  const BaseFilter := "(objectClass=inetOrgPerson)"

  /** The substring assertion `(<attr>=*<term>*)`. */
  function Substring(attr: string, term: string): string {
    "(" + attr + "=*" + term + "*)"
  }

  /** The filter of the user list: every person, or, with a search term,
      the persons whose `cn`, `mail` or `displayName` contains it.  The
      term goes in as it is, with none of the escapes of section 3 of
      RFC 4515. */
  function UsersFilter(search: string): string {
    if search == "" then BaseFilter
    else "(&" + BaseFilter + "(|" + Substring("cn", search) + Substring("mail", search)
         + Substring("displayName", search) + "))"
  }

  /** Reads the search term back out of a filter. */
  function SearchOf(filter: string): string {
    if |filter| < 65 then "" else filter[36..36 + (|filter| - 65) / 3]
  }

  /** `y` occurs in `x + y + z` right after `x`. */
  lemma OccursBetween(x: string, y: string, z: string)
    ensures OccursAt(x + y + z, y, |x|)
  {
    assert (x + y + z)[|x|..|x| + |y|] == y;
  }

  /** The term can be read back from the filter, so no two terms give the
      same filter; only the empty term gives the plain person filter. */
  lemma UsersFilterSearch(search: string)
    ensures SearchOf(UsersFilter(search)) == search
    ensures search == "" <==> UsersFilter(search) == BaseFilter
  {
    var f := UsersFilter(search);
    if search != "" {
      var head := "(&" + BaseFilter + "(|(cn=*";
      var tail := "*)" + Substring("mail", search) + Substring("displayName", search) + "))";
      assert |head| == 36;
      assert |tail| == 29 + 2 * |search|;
      assert f == head + search + tail;
      OccursBetween(head, search, tail);
    } else {
      assert |f| == 27;
    }
  }

  /** The term sits verbatim inside each of the three substring
      assertions of the filter. */
  lemma UsersFilterVerbatim(search: string)
    requires search != ""
    ensures Contains(UsersFilter(search), Substring("cn", search))
    ensures Contains(UsersFilter(search), Substring("mail", search))
    ensures Contains(UsersFilter(search), Substring("displayName", search))
  {
    var head := "(&" + BaseFilter + "(|";
    var cn := Substring("cn", search);
    var mail := Substring("mail", search);
    var name := Substring("displayName", search);
    assert UsersFilter(search) == head + cn + mail + name + "))";
    OccursEach(head, cn, mail, name, "))");
  }

  /** Each of three middle pieces occurs in the concatenation. */
  lemma OccursEach(head: string, a: string, b: string, c: string, tail: string)
    ensures Contains(head + a + b + c + tail, a)
    ensures Contains(head + a + b + c + tail, b)
    ensures Contains(head + a + b + c + tail, c)
  {
    var f := head + a + b + c + tail;
    assert f == head + a + (b + c + tail);
    assert f == (head + a) + b + (c + tail);
    assert f == (head + a + b) + c + tail;
    OccursBetween(head, a, b + c + tail);
    OccursBetween(head + a, b, c + tail);
    OccursBetween(head + a + b, c, tail);
  }

  // ---------------------------------------------------------------------
  // Page of the user list

  /** `parseInt(q) || d`: a query value that is not a number (`None`) or
      is 0 gives the default; any other number, negative ones too, is
      kept. */
  function ParamOr(q: Option<int>, d: int): int {
    if q.Some? && q.value != 0 then q.value else d
  }

  /** A bound of `Array.prototype.slice`: a negative bound counts from the
      end; either way it is clamped to the array. */
  function SliceBound(n: nat, b: int): (r: nat)
    ensures r <= n
    ensures b >= 0 ==> r == if b <= n then b else n
  {
    if b < 0 then (if n + b < 0 then 0 else n + b)
    else if b > n then n else b
  }

  /** `s.slice(start, end)`. */
  function JsSlice<T>(s: seq<T>, start: int, end: int): seq<T> {
    var from := SliceBound(|s|, start);
    var to := SliceBound(|s|, end);
    if from < to then s[from..to] else []
  }

  /** `user && user.cn`: a user record that is there and has a `cn`. */
  predicate HasCn(u: Option<Obj>) {
    u.Some? && Truthy(Get(u.value, "cn"))
  }

  /** `users.filter(user => user && user.cn)`. */
  function ValidUsers(users: seq<Option<Obj>>): (r: seq<Obj>)
    ensures |r| <= |users|
    ensures forall o :: o in r <==> Some(o) in users && Truthy(Get(o, "cn"))
  {
    if users == [] then []
    else
      var rest := ValidUsers(users[..|users| - 1]);
      assert users == users[..|users| - 1] + [users[|users| - 1]];
      if HasCn(users[|users| - 1]) then rest + [users[|users| - 1].value] else rest
  }

  /** The filter keeps the users' order and multiplicity: it distributes
      over concatenation, and a single user stays iff it has a `cn`. */
  lemma {:induction false} ValidUsersAppend(a: seq<Option<Obj>>, b: seq<Option<Obj>>, u: Option<Obj>)
    ensures ValidUsers(a + b) == ValidUsers(a) + ValidUsers(b)
    ensures ValidUsers([u]) == if HasCn(u) then [u.value] else []
    decreases |b|
  {
    ValidUsersSnoc([], u);
    assert [] + [u] == [u];
    if b != [] {
      var b', last := b[..|b| - 1], b[|b| - 1];
      assert b == b' + [last];
      assert a + b == (a + b') + [last];
      var t := if HasCn(last) then [last.value] else [];
      ValidUsersAppend(a, b', u);
      ValidUsersSnoc(a + b', last);
      ValidUsersSnoc(b', last);
      assert ValidUsers(a + b) == ValidUsers(a) + ValidUsers(b') + t;
    } else {
      assert a + b == a;
    }
  }

  /** One more user adds itself at the end exactly when it has a `cn`. */
  lemma ValidUsersSnoc(xs: seq<Option<Obj>>, x: Option<Obj>)
    ensures ValidUsers(xs + [x]) == ValidUsers(xs) + if HasCn(x) then [x.value] else []
  {
    assert (xs + [x])[..|xs|] == xs;
  }



  /** What the user list answers: the page's users, the page and limit
      used, the number of listed users and whether more follow. */
  datatype Pagination = Pagination(users: seq<Obj>, page: int, limit: int, total: nat, hasMore: bool)

  /** The user list as written: `page` and `limit` from the query with
      defaults 1 and 20, the valid users from `(page - 1) * limit` on,
      `limit` of them. */
  function Paginate(users: seq<Option<Obj>>, pageQuery: Option<int>, limitQuery: Option<int>): Pagination {
    var page := ParamOr(pageQuery, 1);
    var limit := ParamOr(limitQuery, 20);
    var valid := ValidUsers(users);
    var start := (page - 1) * limit;
    Pagination(JsSlice(valid, start, start + limit), page, limit, |valid|, |valid| > start + limit)
  }

  /** Every user on the page has a `cn`, `total` counts only such users
      and `hasMore` holds when they go on past the page's end. */
  lemma PaginateValid(users: seq<Option<Obj>>, pageQuery: Option<int>, limitQuery: Option<int>)
    ensures var p := Paginate(users, pageQuery, limitQuery);
      && (forall o :: o in p.users ==> Some(o) in users && Truthy(Get(o, "cn")))
      && p.total == |ValidUsers(users)|
      && (p.hasMore <==> p.total > (p.page - 1) * p.limit + p.limit)
  {
    var page := ParamOr(pageQuery, 1);
    var limit := ParamOr(limitQuery, 20);
    var start := (page - 1) * limit;
    JsSliceWithin(ValidUsers(users), start, start + limit);
  }

  /** A slice holds only elements of the array. */
  lemma JsSliceWithin<T>(s: seq<T>, start: int, end: int)
    ensures forall x :: x in JsSlice(s, start, end) ==> x in s
  {
    var from := SliceBound(|s|, start);
    var to := SliceBound(|s|, end);
    if from < to {
      forall x | x in s[from..to] ensures x in s {
        var k :| 0 <= k < to - from && s[from..to][k] == x;
        assert x == s[from + k];
      }
    }
  }

  /** With a page of at least 1 and a limit that is not negative, the
      page is the window of `limit` valid users starting at
      `(page - 1) * limit`, cut short at the end of the list. */
  lemma PaginateWindow(users: seq<Option<Obj>>, pageQuery: Option<int>, limitQuery: Option<int>)
    requires ParamOr(pageQuery, 1) >= 1 && ParamOr(limitQuery, 20) >= 0
    ensures var p := Paginate(users, pageQuery, limitQuery);
      var valid := ValidUsers(users);
      var start := (p.page - 1) * p.limit;
      && |p.users| <= p.limit
      && (0 <= start < |valid| ==> p.users == valid[start..if start + p.limit <= |valid| then start + p.limit else |valid|])
      && (start >= |valid| ==> p.users == [])
      && start >= 0
  {
    var page := ParamOr(pageQuery, 1);
    var limit := ParamOr(limitQuery, 20);
    var valid := ValidUsers(users);
    var start := (page - 1) * limit;
    NonNegativeProduct(page - 1, limit);
    SliceWindow(valid, start, limit);
    assert Paginate(users, pageQuery, limitQuery)
      == Pagination(JsSlice(valid, start, start + limit), page, limit, |valid|, |valid| > start + limit);
  }

  /** From a start that is not negative, a slice of `limit` elements is
      the window there, cut short at the end. */
  lemma SliceWindow<T>(s: seq<T>, start: int, limit: int)
    requires start >= 0 && limit >= 0
    ensures |JsSlice(s, start, start + limit)| <= limit
    ensures 0 <= start < |s| ==> JsSlice(s, start, start + limit) == s[start..if start + limit <= |s| then start + limit else |s|]
    ensures start >= |s| ==> JsSlice(s, start, start + limit) == []
  {
    var from := SliceBound(|s|, start);
    var to := SliceBound(|s|, start + limit);
    assert from == if start <= |s| then start else |s|;
    assert to == if start + limit <= |s| then start + limit else |s|;
  }

  lemma NonNegativeProduct(a: int, b: int)
    requires a >= 0 && b >= 0
    ensures a * b >= 0
  {
  }

  /** A negative limit is truthy and kept, and the slice's negative end
      then counts from the end: with `?page=1&limit=-1` and three users
      with a `cn`, two of them are listed. */
  lemma PaginateNegativeLimit(o: Obj)
    requires Truthy(Get(o, "cn"))
    ensures var p := Paginate([Some(o), Some(o), Some(o)], Some(1), Some(-1));
      p.limit == -1 && |p.users| == 2
  {
    var users := [Some(o), Some(o), Some(o)];
    assert users[..2][..1] == [Some(o)] && users[..2] == [Some(o), Some(o)];
    assert ValidUsers(users) == [o, o, o];
  }

  /** `parseInt(q)` when it is a positive number, otherwise the default. */
  function PositiveParamOr(q: Option<int>, d: nat): (r: int)
    requires d > 0
    ensures r > 0
    ensures q.Some? && q.value > 0 ==> r == q.value
  {
    if q.Some? && q.value > 0 then q.value else d
  }

  /** The user list as intended: only positive pages and limits are taken
      from the query. */
  function PaginatePositive(users: seq<Option<Obj>>, pageQuery: Option<int>, limitQuery: Option<int>): Pagination {
    var page := PositiveParamOr(pageQuery, 1);
    var limit := PositiveParamOr(limitQuery, 20);
    var valid := ValidUsers(users);
    var start := (page - 1) * limit;
    Pagination(JsSlice(valid, start, start + limit), page, limit, |valid|, |valid| > start + limit)
  }

  /** The intended list never shows more than `limit` users, each with a
      `cn`, taken in order from `(page - 1) * limit`, and `hasMore` holds
      exactly when valid users follow the page. */
  lemma PaginatePositiveWindow(users: seq<Option<Obj>>, pageQuery: Option<int>, limitQuery: Option<int>)
    ensures var p := PaginatePositive(users, pageQuery, limitQuery);
      var valid := ValidUsers(users);
      var start := (p.page - 1) * p.limit;
      && |p.users| <= p.limit
      && (forall o :: o in p.users ==> Truthy(Get(o, "cn")))
      && (0 <= start < |valid| ==> p.users == valid[start..if start + p.limit <= |valid| then start + p.limit else |valid|])
      && (start >= |valid| ==> p.users == [])
      && start >= 0
      && (p.hasMore <==> start + |p.users| < |valid|)
  {
    var p := PaginatePositive(users, pageQuery, limitQuery);
    var valid := ValidUsers(users);
    NonNegativeProduct(p.page - 1, p.limit);
    forall o | o in p.users ensures Truthy(Get(o, "cn")) {
      var k :| 0 <= k < |p.users| && p.users[k] == o;
      assert o in valid;
    }
  }

  // ---------------------------------------------------------------------
  // Member count of a group

  /** `memberCount`: the length of an array, 1 for a truthy single value,
      0 otherwise. */
  function MemberCount(member: Value): (n: nat)
    ensures member.List? ==> n == |member.items|
    ensures !member.List? ==> (n == 1 <==> Truthy(member)) && n <= 1
  {
    match member
    case List(items) => |items|
    case Str(s) => if s != "" then 1 else 0
    case Undefined => 0
  }

  /** For a `member` read back from the directory (a non-empty string or
      an array of them) the count is the number of stored values. */
  lemma MemberCountStored(member: Value)
    requires !member.Undefined? && member != Str("")
    ensures MemberCount(member) == |Values(member)|
  {
  }

  // ---------------------------------------------------------------------
  // validateUserData

  /** The checks of `validateUserData`, in the order they run. */
  datatype UserDataError =
    | UsernameShort | UsernameChars | FirstNameShort | LastNameShort
    | EmailFormat | PasswordShort | PasswordWeak

  /** The message each failed check reports. */
  function UserDataMessage(e: UserDataError): string {
    match e
    case UsernameShort => "El nombre de usuario debe tener al menos 3 caracteres"
    case UsernameChars => "El nombre de usuario solo puede contener letras, números, puntos, guiones y guiones bajos"
    case FirstNameShort => "El nombre debe tener al menos 2 caracteres"
    case LastNameShort => "El apellido debe tener al menos 2 caracteres"
    case EmailFormat => "El email no tiene un formato válido"
    case PasswordShort => "La contraseña debe tener al menos 6 caracteres"
    case PasswordWeak => "La contraseña debe contener al menos una mayúscula, una minúscula y un número"
  }

  /** `[a-zA-Z0-9._-]`. */
  predicate UsernameChar(c: char) {
    IsAsciiLetter(c) || IsDigit(c) || c == '.' || c == '_' || c == '-'
  }

  /** `/^[a-zA-Z0-9._-]+$/.test(s)`. */
  predicate UsernameCharsOk(s: string) {
    s != [] && forall k :: 0 <= k < |s| ==> UsernameChar(s[k])
  }

  /** The form of a new user; `""` stands for a field that is absent. */
  datatype UserData = UserData(username: string, firstName: string, lastName: string,
                               email: string, password: string, department: string, title: string)

  /** Which checks failed. */
  datatype UserDataFailures = UserDataFailures(usernameShort: bool, usernameChars: bool,
                                               firstNameShort: bool, lastNameShort: bool,
                                               emailFormat: bool, passwordShort: bool, passwordWeak: bool)

  /** The outcome of each check on the form, as the source writes it. */
  function UserDataFailuresOf(d: UserData): UserDataFailures {
    UserDataFailures(
      d.username == "" || |Trim(d.username)| < 3,
      d.username != "" && !UsernameCharsOk(d.username),
      d.firstName == "" || |Trim(d.firstName)| < 2,
      d.lastName == "" || |Trim(d.lastName)| < 2,
      d.email != "" && !EmailShape(d.email),
      d.password == "" || |d.password| < 6,
      d.password != "" && !Complexity(d.password))
  }

  /** The checks in order, each with its outcome. */
  function UserDataChecks(f: UserDataFailures): seq<(bool, UserDataError)> {
    [(f.usernameShort, UsernameShort), (f.usernameChars, UsernameChars),
     (f.firstNameShort, FirstNameShort), (f.lastNameShort, LastNameShort),
     (f.emailFormat, EmailFormat), (f.passwordShort, PasswordShort), (f.passwordWeak, PasswordWeak)]
  }

  /** The errors `validateUserData` returns for a form. */
  function UserDataErrors(d: UserData): seq<UserDataError> {
    Reported(UserDataChecks(UserDataFailuresOf(d)))
  }

  /** The position of each check. */
  function UserDataRank(e: UserDataError): (i: nat)
    ensures i < 7
  {
    match e
    case UsernameShort => 0
    case UsernameChars => 1
    case FirstNameShort => 2
    case LastNameShort => 3
    case EmailFormat => 4
    case PasswordShort => 5
    case PasswordWeak => 6
  }

  /** The condition under which each error is reported.  The falsy tests
      add nothing: an absent field has length 0 and fails the length
      check anyway. */
  predicate UserDataFails(d: UserData, e: UserDataError) {
    match e
    case UsernameShort => |Trim(d.username)| < 3
    case UsernameChars => d.username != "" && !UsernameCharsOk(d.username)
    case FirstNameShort => |Trim(d.firstName)| < 2
    case LastNameShort => |Trim(d.lastName)| < 2
    case EmailFormat => d.email != "" && !EmailShape(d.email)
    case PasswordShort => |d.password| < 6
    case PasswordWeak => d.password != "" && !Complexity(d.password)
  }

  /** An error is reported exactly when its condition holds. */
  lemma UserDataErrorsMembers(d: UserData, e: UserDataError)
    ensures e in UserDataErrors(d) <==> UserDataFails(d, e)
  {
    var checks := UserDataChecks(UserDataFailuresOf(d));
    UserDataRanks(checks);
    UserDataCheckAt(d, e);
    ReportedRanked(checks, UserDataRank, e);
  }

  /** Each check's error is numbered by its place. */
  lemma UserDataRanks(checks: seq<(bool, UserDataError)>)
    requires exists f :: checks == UserDataChecks(f)
    ensures |checks| == 7 && forall i :: 0 <= i < 7 ==> UserDataRank(checks[i].1) == i
  {
  }

  /** The check reporting `e` fails exactly under `e`'s condition. */
  lemma UserDataCheckAt(d: UserData, e: UserDataError)
    ensures UserDataChecks(UserDataFailuresOf(d))[UserDataRank(e)] == (UserDataFails(d, e), e)
  {
    var f := UserDataFailuresOf(d);
    FailuresMean(d);
    match e
    case UsernameShort => assert UserDataChecks(f)[0] == (f.usernameShort, e);
    case UsernameChars => assert UserDataChecks(f)[1] == (f.usernameChars, e);
    case FirstNameShort => assert UserDataChecks(f)[2] == (f.firstNameShort, e);
    case LastNameShort => assert UserDataChecks(f)[3] == (f.lastNameShort, e);
    case EmailFormat => assert UserDataChecks(f)[4] == (f.emailFormat, e);
    case PasswordShort => assert UserDataChecks(f)[5] == (f.passwordShort, e);
    case PasswordWeak => assert UserDataChecks(f)[6] == (f.passwordWeak, e);
  }

  /** Each recorded outcome is its error's condition. */
  lemma FailuresMean(d: UserData)
    ensures UserDataFailuresOf(d).usernameShort == UserDataFails(d, UsernameShort)
    ensures UserDataFailuresOf(d).usernameChars == UserDataFails(d, UsernameChars)
    ensures UserDataFailuresOf(d).firstNameShort == UserDataFails(d, FirstNameShort)
    ensures UserDataFailuresOf(d).lastNameShort == UserDataFails(d, LastNameShort)
    ensures UserDataFailuresOf(d).emailFormat == UserDataFails(d, EmailFormat)
    ensures UserDataFailuresOf(d).passwordShort == UserDataFails(d, PasswordShort)
    ensures UserDataFailuresOf(d).passwordWeak == UserDataFails(d, PasswordWeak)
  {
    TooShortIffTrimmed(d.username, 3);
    TooShortIffTrimmed(d.firstName, 2);
    TooShortIffTrimmed(d.lastName, 2);
  }

  /** An absent field fails a positive length check anyway. */
  lemma TooShortIffTrimmed(s: string, n: nat)
    requires n > 0
    ensures (s == "" || |Trim(s)| < n) <==> |Trim(s)| < n
  {
    if s == "" { TrimOfTrimmed(s); }
  }

  /** The errors come in the order of the checks, each at most once. */
  lemma UserDataErrorsOrdered(d: UserData)
    ensures forall i, j :: 0 <= i < j < |UserDataErrors(d)| ==>
      UserDataRank(UserDataErrors(d)[i]) < UserDataRank(UserDataErrors(d)[j])
  {
    var checks := UserDataChecks(UserDataFailuresOf(d));
    UserDataRanks(checks);
    CollectOrdered(checks, 7, UserDataRank);
  }

  /** A form passes exactly when the trimmed username has at least 3
      characters, all from `[a-zA-Z0-9._-]`, both trimmed names at least
      2, the e-mail is absent or well formed, and the password has at
      least 6 characters and passes the complexity test. */
  lemma UserDataAccepted(d: UserData)
    ensures UserDataErrors(d) == [] <==>
      && |Trim(d.username)| >= 3 && UsernameCharsOk(d.username)
      && |Trim(d.firstName)| >= 2 && |Trim(d.lastName)| >= 2
      && (d.email == "" || EmailShape(d.email))
      && |d.password| >= 6 && Complexity(d.password)
  {
    var errors := UserDataErrors(d);
    if errors != [] {
      UserDataErrorsMembers(d, errors[0]);
    } else {
      UserDataErrorsMembers(d, UsernameShort);
      UserDataErrorsMembers(d, UsernameChars);
      UserDataErrorsMembers(d, FirstNameShort);
      UserDataErrorsMembers(d, LastNameShort);
      UserDataErrorsMembers(d, EmailFormat);
      UserDataErrorsMembers(d, PasswordShort);
      UserDataErrorsMembers(d, PasswordWeak);
    }
  }

  /** The username checks of `validateUserData`: length, then characters. */
  method PushUsernameChecks(d: UserData) returns (out: seq<UserDataError>)
    ensures out == Collect(UserDataChecks(UserDataFailuresOf(d)), 2)
  {
    ghost var checks := UserDataChecks(UserDataFailuresOf(d));
    out := [];
    if d.username == "" || |Trim(d.username)| < 3 {
      out := out + [UsernameShort];
    }
    assert out == Collect(checks, 1);
    if d.username != "" && !UsernameCharsOk(d.username) {
      out := out + [UsernameChars];
    }
  }

  /** The name checks of `validateUserData`: first name, then last name. */
  method PushNameChecks(errors: seq<UserDataError>, d: UserData) returns (out: seq<UserDataError>)
    requires errors == Collect(UserDataChecks(UserDataFailuresOf(d)), 2)
    ensures out == Collect(UserDataChecks(UserDataFailuresOf(d)), 4)
  {
    ghost var checks := UserDataChecks(UserDataFailuresOf(d));
    out := errors;
    if d.firstName == "" || |Trim(d.firstName)| < 2 {
      out := out + [FirstNameShort];
    }
    assert out == Collect(checks, 3);
    if d.lastName == "" || |Trim(d.lastName)| < 2 {
      out := out + [LastNameShort];
    }
  }

  /** The e-mail and password checks of `validateUserData`: format, then
      length, then complexity. */
  method PushEmailPasswordChecks(errors: seq<UserDataError>, d: UserData) returns (out: seq<UserDataError>)
    requires errors == Collect(UserDataChecks(UserDataFailuresOf(d)), 4)
    ensures out == Collect(UserDataChecks(UserDataFailuresOf(d)), 7)
  {
    ghost var checks := UserDataChecks(UserDataFailuresOf(d));
    out := errors;
    if d.email != "" && !EmailShape(d.email) {
      out := out + [EmailFormat];
    }
    assert out == Collect(checks, 5);
    if d.password == "" || |d.password| < 6 {
      out := out + [PasswordShort];
    }
    assert out == Collect(checks, 6);
    if d.password != "" && !Complexity(d.password) {
      out := out + [PasswordWeak];
    }
  }

  /** `validateUserData`: the errors pushed by the checks in turn. */
  method ValidateUserData(d: UserData) returns (errors: seq<UserDataError>)
    ensures errors == UserDataErrors(d)
  {
    errors := PushUsernameChecks(d);
    errors := PushNameChecks(errors, d);
    errors := PushEmailPasswordChecks(errors, d);
  }

  // ---------------------------------------------------------------------
  // New user

  const UserClasses := ["inetOrgPerson", "organizationalPerson", "person"]

  /** The base of new users, written out in the route rather than read
      from the configuration. */
  const PeopleBase := "ou=people,dc=ejemplo,dc=com"

  /** The DN of a new user: `cn=` and the trimmed username under the
      people base. */
  function NewUserDN(username: string): string {
    "cn=" + Trim(username) + "," + PeopleBase
  }

  /** A new user's DN is the DN a login with the trimmed name binds with,
      except for the name `admin`, whose login binds as the administrator
      and never as the user created here. */
  lemma NewUserDNBinds(username: string)
    ensures Trim(username) != "admin" ==> NewUserDN(username) == BindDN(Trim(username))
    ensures Trim(username) == "admin" ==> BindDN(Trim(username)) == AdminDN != NewUserDN(username)
  {
    if Trim(username) == "admin" {
      assert NewUserDN(username)[9..] != AdminDN[9..];
    }
  }

  /** The fields of a new user as the route uses them: `""` for an
      optional field that is left out. */
  datatype NewUserFields = NewUserFields(cn: string, sn: string, givenName: string, password: string,
                                         mail: string, department: string, title: string)

  /** The route trims every field but the password. */
  function TrimmedFields(d: UserData): NewUserFields {
    NewUserFields(Trim(d.username), Trim(d.lastName), Trim(d.firstName), d.password,
                  Trim(d.email), Trim(d.department), Trim(d.title))
  }

  /** The attributes every new user gets. */
  function UserBase(f: NewUserFields): Obj {
    [("objectClass", List(UserClasses)), ("cn", Str(f.cn)), ("sn", Str(f.sn)),
     ("givenName", Str(f.givenName)), ("displayName", Str(f.givenName + " " + f.sn)),
     ("uid", Str(f.cn)), ("userPassword", Str(f.password))]
  }

  /** The entry `k: value` when the value is not empty. */
  function Optional(k: string, value: string): Obj {
    if value != "" then [(k, Str(value))] else []
  }

  /** The attributes of a new user: the fixed ones, then `mail`,
      `departmentNumber` and `title` each only when it is not empty. */
  function UserEntry(f: NewUserFields): Obj {
    UserBase(f) + Optional("mail", f.mail) + Optional("departmentNumber", f.department) + Optional("title", f.title)
  }

  /** The assignment `o[k] = v` of a key `o` does not have yet. */
  method Assign(o: Obj, k: string, v: Value) returns (r: Obj)
    requires k !in Keys(o)
    ensures r == o + [(k, v)]
  {
    PutNew(o, k, v);
    r := Put(o, k, v);
  }

  /** The assignments that build the new user's attributes from the form. */
  method NewUserAttributes(d: UserData) returns (attrs: Obj)
    ensures attrs == UserEntry(TrimmedFields(d))
  {
    var f := TrimmedFields(d);
    attrs := UserBase(f);
    ghost var m := Optional("mail", f.mail);
    ghost var dep := Optional("departmentNumber", f.department);
    BaseLacks(f, "mail");
    attrs := AssignIfSet(attrs, "mail", f.mail);
    BaseLacks(f, "departmentNumber");
    OptionalGet("mail", f.mail);
    ConcatLacks(UserBase(f), m, "departmentNumber");
    attrs := AssignIfSet(attrs, "departmentNumber", f.department);
    BaseLacks(f, "title");
    OptionalGet("departmentNumber", f.department);
    ConcatLacks(UserBase(f), m, "title");
    ConcatLacks(UserBase(f) + m, dep, "title");
    attrs := AssignIfSet(attrs, "title", f.title);
  }

  /** `if (value) o[k] = value` for a key `o` does not have yet. */
  method AssignIfSet(o: Obj, k: string, value: string) returns (r: Obj)
    requires k !in Keys(o)
    ensures r == o + Optional(k, value)
  {
    r := o;
    if value != "" {
      r := Assign(o, k, Str(value));
    }
  }

  /** The new user's entry has the fixed keys, then the optional ones
      that are set. */
  lemma UserEntryKeys(f: NewUserFields)
    ensures Keys(UserEntry(f)) == ["objectClass", "cn", "sn", "givenName", "displayName", "uid", "userPassword"]
                          + (if f.mail != "" then ["mail"] else [])
                          + (if f.department != "" then ["departmentNumber"] else [])
                          + (if f.title != "" then ["title"] else [])
  {
  }

  /** No key of the new user's entry is repeated. */
  lemma UserEntryUnique(f: NewUserFields)
    ensures UniqueKeys(UserEntry(f))
  {
    var e := UserEntry(f);
    assert e[0].0[0] != e[4].0[0] && e[1].0[0] != e[2].0[0];
    forall i, j | 0 <= i < j < |e| ensures e[i].0 != e[j].0 {
      assert |e[i].0| != |e[j].0| || (i == 1 && j == 2) || (i == 0 && j == 4);
    }
  }

  /** `cn` and `uid` both hold the username, `displayName` is the first
      and last name with one space between, the password is kept as
      given. */
  lemma UserEntryValues(f: NewUserFields)
    ensures Get(UserEntry(f), "objectClass") == List(UserClasses)
    ensures Get(UserEntry(f), "cn") == Str(f.cn) && Get(UserEntry(f), "uid") == Str(f.cn)
    ensures Get(UserEntry(f), "sn") == Str(f.sn) && Get(UserEntry(f), "givenName") == Str(f.givenName)
    ensures Get(UserEntry(f), "displayName") == Str(f.givenName + " " + f.sn)
    ensures Get(UserEntry(f), "userPassword") == Str(f.password)
  {
    UserEntryUnique(f);
    var e := UserEntry(f);
    GetAt(e, 0);
    GetAt(e, 1);
    GetAt(e, 2);
    GetAt(e, 3);
    GetAt(e, 4);
    GetAt(e, 5);
    GetAt(e, 6);
  }

  /** `mail`, `departmentNumber` and `title` are set exactly when not
      empty. */
  lemma UserEntryOptional(f: NewUserFields)
    ensures Get(UserEntry(f), "mail") == if f.mail != "" then Str(f.mail) else Undefined
    ensures Get(UserEntry(f), "departmentNumber") == if f.department != "" then Str(f.department) else Undefined
    ensures Get(UserEntry(f), "title") == if f.title != "" then Str(f.title) else Undefined
  {
    var base := UserBase(f);
    var m := Optional("mail", f.mail);
    var dep := Optional("departmentNumber", f.department);
    var t := Optional("title", f.title);
    OptionalGet("mail", f.mail);
    OptionalGet("departmentNumber", f.department);
    OptionalGet("title", f.title);
    BaseLacks(f, "mail");
    BaseLacks(f, "departmentNumber");
    BaseLacks(f, "title");
    ConcatLacks(base, m, "departmentNumber");
    ConcatLacks(base, m, "title");
    ConcatLacks(base + m, dep, "title");
    GetConcat(base, m, "mail");
    GetConcat(base + m, dep, "mail");
    GetConcat(base + m + dep, t, "mail");
    GetConcat(base, m, "departmentNumber");
    GetConcat(base + m, dep, "departmentNumber");
    GetConcat(base + m + dep, t, "departmentNumber");
    GetConcat(base + m + dep, t, "title");
  }

  /** The optional keys are not among the fixed ones. */
  lemma BaseLacks(f: NewUserFields, k: string)
    requires k == "mail" || k == "departmentNumber" || k == "title"
    ensures k !in Keys(UserBase(f))
  {
    assert Keys(UserBase(f)) == ["objectClass", "cn", "sn", "givenName", "displayName", "uid", "userPassword"];
  }

  lemma ConcatLacks(o: Obj, p: Obj, k: string)
    requires k !in Keys(o) && k !in Keys(p)
    ensures k !in Keys(o + p)
  {
    assert Keys(o + p) == Keys(o) + Keys(p);
  }

  /** The optional entry holds only its own key. */
  lemma OptionalGet(k: string, value: string)
    ensures Keys(Optional(k, value)) == if value != "" then [k] else []
    ensures Get(Optional(k, value), k) == if value != "" then Str(value) else Undefined
    ensures forall k' :: k' != k ==> k' !in Keys(Optional(k, value))
  {
  }

  const UserExistsMessage := "Ya existe un usuario con ese nombre de usuario"

  /** What adding a user leads to: the form's errors, a user already
      there under the new DN, or the add request. */
  datatype AddUserResult = Invalid(errors: seq<UserDataError>) | AlreadyExists | Created(request: Request)

  /** Adding a user from the form.  `existing` is whether looking the new
      DN up found an entry (a failed lookup counts as not found). */
  method AddUser(d: UserData, existing: bool) returns (r: AddUserResult)
    ensures r.Invalid? <==> UserDataErrors(d) != []
    ensures r.Invalid? ==> r.errors == UserDataErrors(d)
    ensures r.AlreadyExists? <==> UserDataErrors(d) == [] && existing
    ensures r.Created? ==>
      && r.request.AddEntry? && r.request.dn == NewUserDN(d.username)
      && |Trim(d.username)| >= 3 && UsernameCharsOk(d.username)
      && (Trim(d.username) != "admin" ==> r.request.dn == BindDN(Trim(d.username)))
      && Get(r.request.entry, "cn") == Str(Trim(d.username))
      && Get(r.request.entry, "uid") == Str(Trim(d.username))
      && Get(r.request.entry, "objectClass") == List(UserClasses)
      && Get(r.request.entry, "userPassword") == Str(d.password)
    ensures r.Created? ==> r.request == CreateUserRequest(NewUserDN(d.username), UserEntry(TrimmedFields(d)))
  {
    var errors := ValidateUserData(d);
    if |errors| > 0 {
      return Invalid(errors);
    }
    if existing {
      return AlreadyExists;
    }
    var attrs := NewUserAttributes(d);
    UserDataAccepted(d);
    NewUserDNBinds(d.username);
    UserEntryUnique(TrimmedFields(d));
    UserEntryValues(TrimmedFields(d));
    CreateUserEntry(NewUserDN(d.username), attrs);
    r := Created(CreateUserRequest(NewUserDN(d.username), attrs));
  }

  /** The rest of the created entry: `sn`, `givenName` and `displayName`
      from the trimmed names, and `mail`, `departmentNumber` and `title`
      exactly when their trimmed values are not empty. */
  lemma CreatedEntryFields(d: UserData)
    ensures var e := CreateUserRequest(NewUserDN(d.username), UserEntry(TrimmedFields(d))).entry;
      && Get(e, "sn") == Str(Trim(d.lastName))
      && Get(e, "givenName") == Str(Trim(d.firstName))
      && Get(e, "displayName") == Str(Trim(d.firstName) + " " + Trim(d.lastName))
      && Get(e, "mail") == (if Trim(d.email) != "" then Str(Trim(d.email)) else Undefined)
      && Get(e, "departmentNumber") == (if Trim(d.department) != "" then Str(Trim(d.department)) else Undefined)
      && Get(e, "title") == (if Trim(d.title) != "" then Str(Trim(d.title)) else Undefined)
  {
    var f := TrimmedFields(d);
    UserEntryUnique(f);
    UserEntryValues(f);
    UserEntryOptional(f);
    CreateUserEntry(NewUserDN(d.username), UserEntry(f));
  }

  // ---------------------------------------------------------------------
  // Edit of a user

  /** The assignments of a user edit in order, each with its condition:
      `givenName` and `sn` from a given first and last name,
      `displayName` only when both are given, then `mail`,
      `departmentNumber` and `title` from their fields when given. */
  function EditSteps(firstName: string, lastName: string, email: string, department: string, title: string)
    : seq<(bool, (string, Value))>
  {
    [(firstName != "", ("givenName", Str(firstName))), (lastName != "", ("sn", Str(lastName))),
     (firstName != "" && lastName != "", ("displayName", Str(firstName + " " + lastName))),
     (email != "", ("mail", Str(email))), (department != "", ("departmentNumber", Str(department))),
     (title != "", ("title", Str(title)))]
  }

  /** The changes of a user edit. */
  function EditUpdates(firstName: string, lastName: string, email: string, department: string, title: string): Obj {
    Reported(EditSteps(firstName, lastName, email, department, title))
  }

  /** No key of the first `n` steps of an edit is `k`, so `k` is not yet
      assigned after them. */
  lemma EditKeyFree(steps: seq<(bool, (string, Value))>, n: nat, k: string)
    requires n <= |steps| && forall i :: 0 <= i < n ==> steps[i].1.0 != k
    ensures k !in Keys(Collect(steps, n))
  {
    var c := Collect(steps, n);
    forall j | 0 <= j < |c| ensures c[j].0 != k {
      CollectMembers(steps, n, c[j]);
    }
  }

  /** The assignments of a user edit.  The fallback to `[]` of the last
      three never applies, as the field is truthy already. */
  method EditUserUpdates(firstName: string, lastName: string, email: string, department: string, title: string)
    returns (updates: Obj)
    ensures updates == EditUpdates(firstName, lastName, email, department, title)
  {
    ghost var steps := EditSteps(firstName, lastName, email, department, title);
    updates := [];
    if firstName != "" {
      updates := Assign(updates, "givenName", Str(firstName));
    }
    assert updates == Collect(steps, 1);
    EditKeyFree(steps, 1, "sn");
    if lastName != "" {
      updates := Assign(updates, "sn", Str(lastName));
    }
    assert updates == Collect(steps, 2);
    EditKeyFree(steps, 2, "displayName");
    if firstName != "" && lastName != "" {
      updates := Assign(updates, "displayName", Str(firstName + " " + lastName));
    }
    assert updates == Collect(steps, 3);
    EditKeyFree(steps, 3, "mail");
    if email != "" {
      updates := Assign(updates, "mail", Or(Str(email), List([])));
    }
    assert updates == Collect(steps, 4);
    EditKeyFree(steps, 4, "departmentNumber");
    if department != "" {
      updates := Assign(updates, "departmentNumber", Or(Str(department), List([])));
    }
    assert updates == Collect(steps, 5);
    EditKeyFree(steps, 5, "title");
    if title != "" {
      updates := Assign(updates, "title", Or(Str(title), List([])));
    }
    assert updates == Collect(steps, 6);
  }

  /** The position of each attribute among the assignments of an edit. */
  function EditRank(entry: (string, Value)): nat {
    var k := entry.0;
    if k == "givenName" then 0 else if k == "sn" then 1 else if k == "displayName" then 2
    else if k == "mail" then 3 else if k == "departmentNumber" then 4 else 5
  }

  /** A user edit names each attribute at most once, and never with an
      empty value. */
  lemma EditUpdatesShape(firstName: string, lastName: string, email: string, department: string, title: string)
    ensures var u := EditUpdates(firstName, lastName, email, department, title);
      && UniqueKeys(u)
      && (forall i :: 0 <= i < |u| ==> u[i].1.Str? && u[i].1.s != "")
  {
    var steps := EditSteps(firstName, lastName, email, department, title);
    var u := EditUpdates(firstName, lastName, email, department, title);
    forall i | 0 <= i < 6 ensures EditRank(steps[i].1) == i {
    }
    CollectOrdered(steps, 6, EditRank);
    forall i | 0 <= i < |u| ensures u[i].1.Str? && u[i].1.s != "" {
      CollectMembers(steps, 6, u[i]);
    }
  }

  /** Each attribute is set exactly when its field is given, and
      `displayName` when both names are, with the field's value; no other
      attribute is set. */
  lemma EditUpdatesFields(firstName: string, lastName: string, email: string, department: string, title: string)
    ensures var u := EditUpdates(firstName, lastName, email, department, title);
      && (("givenName", Str(firstName)) in u <==> firstName != "")
      && (("sn", Str(lastName)) in u <==> lastName != "")
      && (("displayName", Str(firstName + " " + lastName)) in u <==> firstName != "" && lastName != "")
      && (("mail", Str(email)) in u <==> email != "")
      && (("departmentNumber", Str(department)) in u <==> department != "")
      && (("title", Str(title)) in u <==> title != "")
      && (forall i :: 0 <= i < |u| ==> u[i].0 in ["givenName", "sn", "displayName", "mail", "departmentNumber", "title"])
  {
    var steps := EditSteps(firstName, lastName, email, department, title);
    var u := EditUpdates(firstName, lastName, email, department, title);
    forall i | 0 <= i < 6 ensures EditRank(steps[i].1) == i {
    }
    forall i | 0 <= i < 6 ensures (steps[i].1 in u <==> steps[i].0) {
      CollectMembers(steps, 6, steps[i].1);
    }
    assert steps[0] == (firstName != "", ("givenName", Str(firstName)));
    assert steps[1] == (lastName != "", ("sn", Str(lastName)));
    assert steps[2] == (firstName != "" && lastName != "", ("displayName", Str(firstName + " " + lastName)));
    assert steps[3] == (email != "", ("mail", Str(email)));
    assert steps[4] == (department != "", ("departmentNumber", Str(department)));
    assert steps[5] == (title != "", ("title", Str(title)));
    forall i | 0 <= i < |u| ensures u[i].0 in ["givenName", "sn", "displayName", "mail", "departmentNumber", "title"] {
      CollectMembers(steps, 6, u[i]);
    }
  }

  /** A user edit never clears an attribute: applied to any entry it
      succeeds, every attribute stays, each one it names takes the
      field's one value, and the others keep theirs. */
  lemma EditNeverClears(e: Entry, firstName: string, lastName: string, email: string, department: string, title: string)
    ensures var u := EditUpdates(firstName, lastName, email, department, title);
      && ApplyAll(e, ReplaceChanges(u, {})).Done?
      && var e' := ApplyAll(e, ReplaceChanges(u, {})).entry;
      && (forall k :: k in e ==> k in e')
      && (forall i :: 0 <= i < |u| ==> u[i].1.Str? && u[i].0 in e' && e'[u[i].0] == [u[i].1.s])
      && (forall k :: k in e && k !in Keys(u) ==> e'[k] == e[k])
  {
    var u := EditUpdates(firstName, lastName, email, department, title);
    EditUpdatesShape(firstName, lastName, email, department, title);
    UpdateApplied(e, u, {}, "");
    var e' := ApplyAll(e, ReplaceChanges(u, {})).entry;
    forall k ensures (k in e ==> k in e') && (k in e && k !in Keys(u) ==> e'[k] == e[k]) {
      UpdateApplied(e, u, {}, k);
      if k in Keys(u) {
        var i :| 0 <= i < |u| && Keys(u)[i] == k;
        GetAt(u, i);
      }
    }
    forall i | 0 <= i < |u| ensures u[i].1.Str? && u[i].0 in e' && e'[u[i].0] == [u[i].1.s] {
      UpdateApplied(e, u, {}, u[i].0);
      GetAt(u, i);
      assert Keys(u)[i] == u[i].0;
    }
  }

  // ---------------------------------------------------------------------
  // Groups

  /** The base of new groups, written out in the route. */
  const GroupBase := "ou=groups,dc=ejemplo,dc=com"

  const GroupNameMessage := "El nombre del grupo debe tener al menos 2 caracteres"

  /** The attributes of a new group: the trimmed name as `cn`, and the
      trimmed description when it is not empty. */
  method GroupAttributes(groupName: string, description: string) returns (attrs: Obj)
    ensures Keys(attrs) == ["cn"] + (if Trim(description) != "" then ["description"] else [])
    ensures UniqueKeys(attrs)
    ensures Get(attrs, "cn") == Str(Trim(groupName))
    ensures Get(attrs, "description") == if Trim(description) != "" then Str(Trim(description)) else Undefined
  {
    attrs := [("cn", Str(Trim(groupName)))];
    assert Keys(attrs) == ["cn"];
    if Trim(description) != "" {
      PutNew(attrs, "description", Str(Trim(description)));
      attrs := Put(attrs, "description", Str(Trim(description)));
      assert attrs[0].0 == "cn" && attrs[1].0 == "description";
    }
  }

  /** What creating a group leads to: a refused name, or the add request. */
  datatype GroupCreateResult = NameTooShort(message: string) | GroupCreated(request: Request)

  /** Creating a group from the form: a trimmed name of at least 2
      characters gives an add of `cn=<name>` under the group base whose
      entry is a `groupOfNames` with the administrator as its member, so
      it meets the schema. */
  method CreateGroup(groupName: string, description: string) returns (r: GroupCreateResult)
    ensures r.NameTooShort? <==> |Trim(groupName)| < 2
    ensures r.NameTooShort? ==> r.message == GroupNameMessage
    ensures r.GroupCreated? ==>
      && r.request.AddEntry? && r.request.dn == "cn=" + Trim(groupName) + "," + GroupBase
      && Get(r.request.entry, "cn") == Str(Trim(groupName))
      && Get(r.request.entry, "objectClass") == List(GroupClasses)
      && Get(r.request.entry, "member") == Str(AdminDN)
      && Get(r.request.entry, "description") == (if Trim(description) != "" then Str(Trim(description)) else Undefined)
      && SchemaOk(EntryOf(r.request.entry))
  {
    if groupName == "" || |Trim(groupName)| < 2 {
      assert Trim("") == "";
      return NameTooShort(GroupNameMessage);
    }
    var dn := "cn=" + Trim(groupName) + "," + GroupBase;
    var attrs := GroupAttributes(groupName, description);
    GroupRequestOk(dn, attrs, Trim(groupName), Trim(description));
    r := GroupCreated(CreateGroupRequest(dn, attrs));
  }

  /** The add request of the route's attributes: the name, the default
      classes, the administrator as member and the description if any. */
  lemma GroupRequestOk(dn: string, attrs: Obj, name: string, description: string)
    requires Keys(attrs) == ["cn"] + (if description != "" then ["description"] else [])
    requires UniqueKeys(attrs)
    requires Get(attrs, "cn") == Str(name)
    requires Get(attrs, "description") == if description != "" then Str(description) else Undefined
    ensures var req := CreateGroupRequest(dn, attrs);
      && req.AddEntry? && req.dn == dn
      && Get(req.entry, "cn") == Str(name)
      && Get(req.entry, "objectClass") == List(GroupClasses)
      && Get(req.entry, "member") == Str(AdminDN)
      && Get(req.entry, "description") == (if description != "" then Str(description) else Undefined)
      && SchemaOk(EntryOf(req.entry))
  {
    assert "objectClass" !in Keys(attrs) && "member" !in Keys(attrs);
    assert Get(attrs, "member") == Undefined;
    CreateGroupEntry(dn, attrs);
    CreateGroupSchemaOk(dn, attrs);
  }

  /** The changes of a group edit: with a description given, its trimmed
      value, or `[]` to clear it when that is empty; otherwise none. */
  function EditGroupUpdates(description: Option<string>): Obj {
    if description.Some? then [("description", Or(Str(Trim(description.value)), List([])))] else []
  }

  /** A group edit sets the description to its one trimmed value, removes
      it when the trimmed value is empty, leaves the entry alone when no
      description is given, and never touches the members. */
  lemma EditGroupApplied(e: Entry, description: Option<string>)
    ensures ApplyAll(e, ReplaceChanges(EditGroupUpdates(description), {"member"})).Done?
    ensures var e' := ApplyAll(e, ReplaceChanges(EditGroupUpdates(description), {"member"})).entry;
      && (description.None? ==> e' == e)
      && (description.Some? && Trim(description.value) != "" ==>
            "description" in e' && e'["description"] == [Trim(description.value)])
      && (description.Some? && Trim(description.value) == "" ==> "description" !in e')
      && ("member" in e' <==> "member" in e) && ("member" in e ==> e'["member"] == e["member"])
  {
    var updates := EditGroupUpdates(description);
    assert UniqueKeys(updates);
    UpdateApplied(e, updates, {"member"}, "description");
    UpdateGroupKeepsMembers(e, updates);
    if description.None? {
      assert ReplaceChanges(updates, {"member"}) == [];
    }
  }
}
