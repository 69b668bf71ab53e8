/**
 * What the LDAP service computes from search results: the per-department
 * tally of the directory statistics, the sorted list of departments, and
 * the groups a user belongs to.  The searches themselves are inputs.
 */
module LdapStats {
  import opened JsText
  import opened JsValues

  /** One search result as the aggregation sees it: `null`, or a user with
      its `departmentNumber`. */
  datatype UserRec = NullUser | User(departmentNumber: Value)

  /** The bucket of users without a department. */
  const NoDepartment := "Sin departamento"

  /** The property key a defined value becomes: a string itself, an array
      its items joined with `,`. */
  function KeyOf(v: Value): string
    requires !v.Undefined?
  {
    match v
    case Str(s) => s
    case List(items) => Join(items, ",")
  }

  /** The bucket of a user: its department when truthy, else `NoDepartment`. */
  function DeptKey(u: UserRec): string
    requires u.User?
  {
    if Truthy(u.departmentNumber) then KeyOf(u.departmentNumber) else NoDepartment
  }

  /** The `departments` object: each bucket with its count, buckets in the
      order they were first filled. */
  type Counts = seq<(string, nat)>

  function Buckets(d: Counts): (ks: seq<string>)
    ensures |ks| == |d| && forall i :: 0 <= i < |d| ==> ks[i] == d[i].0
  {
    if d == [] then [] else [d[0].0] + Buckets(d[1..])
  }

  /** `d[k] || 0`. */
  function CountOf(d: Counts, k: string): nat
  {
    if d == [] then 0 else if d[0].0 == k then d[0].1 else CountOf(d[1..], k)
  }

  /** The sum of the counts. */
  function Total(d: Counts): nat
  {
    if d == [] then 0 else d[0].1 + Total(d[1..])
  }

  /** Every bucket that is present holds at least one. */
  ghost predicate Positive(d: Counts) { forall i :: 0 <= i < |d| ==> d[i].1 > 0 }

  /** `d[k] = (d[k] || 0) + 1`: bucket `k` grows by one, a new bucket goes
      last, and the total grows by one. */
  function Bump(d: Counts, k: string): (r: Counts)
    ensures k in Buckets(d) ==> Buckets(r) == Buckets(d)
    ensures k !in Buckets(d) ==> Buckets(r) == Buckets(d) + [k]
  {
    if d == [] then [(k, 1)]
    else if d[0].0 == k then [(k, d[0].1 + 1)] + d[1..]
    else
      var r := [d[0]] + Bump(d[1..], k);
      assert r[1..] == Bump(d[1..], k);
      r
  }

  /** Bucket `k` grows by one and every other bucket keeps its count. */
  lemma {:induction false} BumpCount(d: Counts, k: string, k': string)
    ensures CountOf(Bump(d, k), k') == CountOf(d, k') + (if k' == k then 1 else 0)
  {
    if d != [] && d[0].0 != k {
      BumpCount(d[1..], k, k');
      assert Bump(d, k)[1..] == Bump(d[1..], k);
    }
  }

  /** The total grows by one and no bucket becomes empty. */
  lemma {:induction false} BumpTotal(d: Counts, k: string)
    ensures Total(Bump(d, k)) == Total(d) + 1
    ensures Positive(d) ==> Positive(Bump(d, k))
  {
    if d != [] && d[0].0 != k {
      BumpTotal(d[1..], k);
      assert Bump(d, k)[1..] == Bump(d[1..], k);
    } else if d != [] {
      assert Bump(d, k)[1..] == d[1..];
    }
  }

  /** The tally of `getDirectoryStats`: one more in the bucket of each
      non-null user, in order. */
  function Tally(users: seq<UserRec>): Counts
    decreases |users|
  {
    if users == [] then []
    else
      var d := Tally(users[..|users| - 1]);
      var u := users[|users| - 1];
      if u.NullUser? then d else Bump(d, DeptKey(u))
  }

  /** The loop of `getDirectoryStats` that fills `departments`. */
  method DepartmentStats(users: seq<UserRec>) returns (departments: Counts)
    ensures departments == Tally(users)
  {
    departments := [];
    var i := 0;
    while i < |users|
      invariant 0 <= i <= |users|
      invariant departments == Tally(users[..i])
    {
      assert users[..i + 1][..i] == users[..i];
      var u := users[i];
      if u.User? {
        departments := Bump(departments, DeptKey(u));
      }
      i := i + 1;
    }
    assert users[..|users|] == users;
  }

  /** The positions of the non-null users whose bucket is `k`. */
  function InBucket(users: seq<UserRec>, k: string): set<nat>
  {
    set i: nat | i < |users| && users[i].User? && DeptKey(users[i]) == k
  }

  /** The positions of the non-null users. */
  function NonNull(users: seq<UserRec>): set<nat>
  {
    set i: nat | i < |users| && users[i].User?
  }

  lemma {:induction false} CountOfPositive(d: Counts, k: string)
    requires Positive(d)
    ensures CountOf(d, k) > 0 <==> k in Buckets(d)
  {
    if d != [] {
      assert Buckets(d) == [d[0].0] + Buckets(d[1..]);
      CountOfPositive(d[1..], k);
    }
  }

  /** The non-null positions of a sequence with one more element. */
  lemma NonNullSnoc(users: seq<UserRec>)
    requires users != []
    ensures var n := |users| - 1;
      && n !in NonNull(users[..n])
      && NonNull(users) == NonNull(users[..n]) + (if users[n].User? then {n} else {})
  {
    var n := |users| - 1;
    forall i: nat | i < n ensures users[..n][i] == users[i] { }
  }

  /** The positions in bucket `k` of a sequence with one more element. */
  lemma InBucketSnoc(users: seq<UserRec>, k: string)
    requires users != []
    ensures var n := |users| - 1;
      && n !in InBucket(users[..n], k)
      && InBucket(users, k) == InBucket(users[..n], k) + (if users[n].User? && DeptKey(users[n]) == k then {n} else {})
  {
    var n := |users| - 1;
    forall i: nat | i < n ensures users[..n][i] == users[i] { }
  }

  /** All the buckets together hold every non-null user once, and no
      bucket is empty. */
  lemma {:induction false} TallyTotal(users: seq<UserRec>)
    ensures Total(Tally(users)) == |NonNull(users)|
    ensures Positive(Tally(users))
    decreases |users|
  {
    if users == [] {
      assert NonNull(users) == {};
    } else {
      var n := |users| - 1;
      TallyTotal(users[..n]);
      NonNullSnoc(users);
      if users[n].User? { BumpTotal(Tally(users[..n]), DeptKey(users[n])); }
    }
  }

  /** Each bucket holds exactly the number of non-null users with that
      department. */
  lemma {:induction false} TallyCount(users: seq<UserRec>, k: string)
    ensures CountOf(Tally(users), k) == |InBucket(users, k)|
    decreases |users|
  {
    if users == [] {
      assert InBucket(users, k) == {};
    } else {
      var n := |users| - 1;
      TallyCount(users[..n], k);
      InBucketSnoc(users, k);
      if users[n].User? { BumpCount(Tally(users[..n]), DeptKey(users[n]), k); }
    }
  }

  /** Each bucket holds exactly the number of non-null users with that
      department, and the buckets are exactly the departments that occur. */
  lemma TallyCounts(users: seq<UserRec>, k: string)
    ensures CountOf(Tally(users), k) == |InBucket(users, k)|
    ensures k in Buckets(Tally(users)) <==> |InBucket(users, k)| > 0
  {
    TallyCount(users, k);
    TallyTotal(users);
    CountOfPositive(Tally(users), k);
  }

  /** The figures of `getDirectoryStats`, without its timestamp. */
  datatype Stats = Stats(totalUsers: nat, totalGroups: nat, departmentStats: Counts)

  /** `getDirectoryStats`, given the results of its three searches. */
  method DirectoryStats<U, G>(users: seq<U>, groups: seq<G>, usersByDept: seq<UserRec>) returns (st: Stats)
    ensures st.totalUsers == |users| && st.totalGroups == |groups|
    ensures st.departmentStats == Tally(usersByDept)
  {
    var departments := DepartmentStats(usersByDept);
    st := Stats(|users|, |groups|, departments);
  }

  /** Lexicographic order on code points: the order of the default `sort`. */
  predicate StrLeq(a: string, b: string)
    decreases |a|
  {
    a == [] || (b != [] && (a[0] < b[0] || (a[0] == b[0] && StrLeq(a[1..], b[1..]))))
  }

  lemma {:induction false} StrLeqTotal(a: string, b: string)
    ensures StrLeq(a, b) || StrLeq(b, a)
    decreases |a|
  {
    if a != [] && b != [] && a[0] == b[0] { StrLeqTotal(a[1..], b[1..]); }
  }

  lemma {:induction false} StrLeqTransitive(a: string, b: string, c: string)
    requires StrLeq(a, b) && StrLeq(b, c)
    ensures StrLeq(a, c)
    decreases |a|
  {
    if a != [] && a[0] == b[0] && b[0] == c[0] { StrLeqTransitive(a[1..], b[1..], c[1..]); }
  }

  lemma {:induction false} StrLeqAntisymmetric(a: string, b: string)
    requires StrLeq(a, b) && StrLeq(b, a)
    ensures a == b
    decreases |a|
  {
    if a != [] { StrLeqAntisymmetric(a[1..], b[1..]); }
  }

  predicate AllDefined(s: seq<Value>) { forall i :: 0 <= i < |s| ==> !s[i].Undefined? }

  /** Two defined values whose keys are in order. */
  predicate KeyLeq(a: Value, b: Value) {
    !a.Undefined? && !b.Undefined? && StrLeq(KeyOf(a), KeyOf(b))
  }

  /** Each key is at most the next one. */
  ghost predicate Sorted(s: seq<Value>)
  {
    forall i, j :: 0 <= i < j < |s| && j == i + 1 ==> KeyLeq(s[i], s[j])
  }

  /** Places `x` after the leading elements whose key is not above its own. */
  function Insert(x: Value, s: seq<Value>): (r: seq<Value>)
    requires !x.Undefined? && AllDefined(s)
    ensures multiset(r) == multiset(s) + multiset{x}
    ensures AllDefined(r)
  {
    if s == [] then [x]
    else if StrLeq(KeyOf(s[0]), KeyOf(x)) then
      var t := Insert(x, s[1..]);
      assert multiset(s) == multiset{s[0]} + multiset(s[1..]) by { assert s == [s[0]] + s[1..]; }
      assert multiset([s[0]] + t) == multiset{s[0]} + multiset(t);
      [s[0]] + t
    else
      [x] + s
  }

  /** An element whose key is not above the first key of a sorted
      sequence can go in front of it. */
  lemma ConsSorted(a: Value, t: seq<Value>)
    requires !a.Undefined? && t != [] && !t[0].Undefined? && Sorted(t)
    requires StrLeq(KeyOf(a), KeyOf(t[0]))
    ensures Sorted([a] + t)
  {
    var r := [a] + t;
    forall i, j | 0 <= i < j < |r| && j == i + 1 ensures KeyLeq(r[i], r[j]) {
      if i > 0 { assert r[i] == t[i - 1] && r[j] == t[j - 1]; }
    }
  }

  /** Inserting into a sorted sequence keeps it sorted. */
  lemma {:induction false} InsertSorted(x: Value, s: seq<Value>)
    requires !x.Undefined? && AllDefined(s) && Sorted(s)
    ensures Sorted(Insert(x, s))
    ensures Insert(x, s)[0] == x || Insert(x, s)[0] == s[0]
  {
    if s != [] {
      if StrLeq(KeyOf(s[0]), KeyOf(x)) {
        var t := Insert(x, s[1..]);
        assert Sorted(s[1..]) by {
          forall i, j | 0 <= i < j < |s| - 1 && j == i + 1 ensures KeyLeq(s[1..][i], s[1..][j]) {
            assert s[1..][i] == s[i + 1] && s[1..][j] == s[j + 1];
          }
        }
        InsertSorted(x, s[1..]);
        if t[0] != x { assert t[0] == s[1]; }
        ConsSorted(s[0], t);
      } else {
        StrLeqTotal(KeyOf(s[0]), KeyOf(x));
        ConsSorted(x, s);
      }
    }
  }

  /** `Array.prototype.sort` with no comparator: a stable insertion of each
      element in turn. */
  function SortDepartments(s: seq<Value>): (r: seq<Value>)
    requires AllDefined(s)
    ensures Sorted(r) && multiset(r) == multiset(s) && AllDefined(r)
    decreases |s|
  {
    if s == [] then []
    else
      var init := s[..|s| - 1];
      assert s == init + [s[|s| - 1]];
      var t := SortDepartments(init);
      InsertSorted(s[|s| - 1], t);
      Insert(s[|s| - 1], t)
  }

  /** The `Set` of `getAllDepartments`: each truthy department once.  An
      array is an object of its own, so every truthy array goes in. */
  function Collect(users: seq<UserRec>): (r: seq<Value>)
    requires forall i :: 0 <= i < |users| ==> users[i].User?
    ensures AllDefined(r)
    decreases |users|
  {
    if users == [] then []
    else
      var rest := Collect(users[..|users| - 1]);
      var v := users[|users| - 1].departmentNumber;
      if Truthy(v) && (v.List? || v !in rest) then rest + [v] else rest
  }

  /** Exactly the truthy departments are collected, and no string twice. */
  lemma {:induction false} CollectContents(users: seq<UserRec>)
    requires forall i :: 0 <= i < |users| ==> users[i].User?
    ensures forall v :: v in Collect(users) <==> Truthy(v) && exists i :: 0 <= i < |users| && users[i].departmentNumber == v
    ensures forall i, j :: 0 <= i < j < |Collect(users)| && Collect(users)[i] == Collect(users)[j] ==> Collect(users)[i].List?
    decreases |users|
  {
    if users != [] {
      var n := |users| - 1;
      CollectContents(users[..n]);
      forall i | 0 <= i < n ensures users[..n][i] == users[i] { }
    }
  }

  /** The loop of `getAllDepartments`; a `null` user makes it throw. */
  method AllDepartments(users: seq<UserRec>) returns (r: Option<seq<Value>>)
    ensures r.None? <==> exists i :: 0 <= i < |users| && users[i].NullUser?
    ensures r.Some? ==> r.value == SortDepartments(Collect(users))
  {
    var departments: seq<Value> := [];
    var i := 0;
    while i < |users|
      invariant 0 <= i <= |users|
      invariant forall j :: 0 <= j < i ==> users[j].User?
      invariant departments == Collect(users[..i])
    {
      if users[i].NullUser? {
        return None;
      }
      assert users[..i + 1][..i] == users[..i];
      var v := users[i].departmentNumber;
      if Truthy(v) && (v.List? || v !in departments) {
        departments := departments + [v];
      }
      i := i + 1;
    }
    assert users[..|users|] == users;
    r := Some(SortDepartments(departments));
  }

  /** One group search result: `null`, or a group with its `cn`. */
  datatype GroupRec = NullGroup | Group(cn: Value, description: Value)

  /** The filter of `getUserGroups`: the user's DN goes in as it is, with
      none of the escaping of section 3 of RFC 4515. */
  function UserGroupsFilter(userDN: string): (f: string)
    ensures Contains(f, "(member=" + userDN + ")")
  {
    var f := "(&(objectClass=groupOfNames)(member=" + userDN + "))";
    assert OccursAt(f, "(member=" + userDN + ")", 28);
    f
  }

  /** `getUserGroups`: the search results that are groups with a truthy
      `cn`, in order; a failed search gives no groups. */
  function UserGroups(search: Option<seq<GroupRec>>): (r: seq<GroupRec>)
    ensures forall g :: g in r <==> search.Some? && g in search.value && g.Group? && Truthy(g.cn)
    ensures search.Some? ==> |r| <= |search.value|
    decreases if search.Some? then |search.value| else 0
  {
    match search
    case None => []
    case Some(gs) =>
      if gs == [] then []
      else
        var rest := UserGroups(Some(gs[1..]));
        assert forall g :: g in gs <==> g == gs[0] || g in gs[1..];
        if gs[0].Group? && Truthy(gs[0].cn) then [gs[0]] + rest else rest
  }

  /** The filter keeps the search's order and multiplicity: it
      distributes over concatenation, and a single record stays iff it is
      a group with a truthy `cn`. */
  lemma {:induction false} UserGroupsAppend(a: seq<GroupRec>, b: seq<GroupRec>, g: GroupRec)
    ensures UserGroups(Some(a + b)) == UserGroups(Some(a)) + UserGroups(Some(b))
    ensures UserGroups(Some([g])) == if g.Group? && Truthy(g.cn) then [g] else []
    decreases |a|
  {
    assert [g][1..] == [];
    if a != [] {
      assert (a + b)[1..] == a[1..] + b;
      UserGroupsAppend(a[1..], b, g);
    } else {
      assert a + b == b;
    }
  }

  /** `isUserInGroup`: some group of the user has exactly that `cn`. */
  predicate IsUserInGroup(search: Option<seq<GroupRec>>, groupName: string)
  {
    exists g :: g in UserGroups(search) && g.Group? && g.cn == Str(groupName)
  }

  /** A user is in a group iff the search succeeded and found a group whose
      `cn` is that (non-empty) name; an array `cn` never matches. */
  lemma IsUserInGroupIff(search: Option<seq<GroupRec>>, groupName: string)
    ensures IsUserInGroup(search, groupName) <==>
      search.Some? && groupName != "" && exists i :: 0 <= i < |search.value| && search.value[i].Group? && search.value[i].cn == Str(groupName)
  {
    if search.Some? && groupName != "" && exists i :: 0 <= i < |search.value| && search.value[i].Group? && search.value[i].cn == Str(groupName) {
      var i :| 0 <= i < |search.value| && search.value[i].Group? && search.value[i].cn == Str(groupName);
      assert search.value[i] in UserGroups(search);
    }
  }
}
