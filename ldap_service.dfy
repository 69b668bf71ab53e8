/**
 * What the LDAP service sends to the directory: the DN it binds with when
 * authenticating a user, and the add and modify requests behind user and
 * group creation, updates and membership changes.  The directory itself is
 * the reference semantics of module `Directory`.
 */
module LdapService {
  import opened JsText
  import opened JsValues
  import opened Directory

  /** The administrator's DN and the base under which users live. */
  const AdminDN := "cn=admin,dc=ejemplo,dc=com"
  const UserBaseDN := "ou=people,dc=ejemplo,dc=com"

  /** The DN a user binds with: the administrator's DN for `admin`, otherwise
      `cn=<username>` under the user base. */
  function BindDN(username: string): string
  {
    if username == "admin" then AdminDN else "cn=" + username + "," + UserBaseDN
  }

  /** Only the name `admin` binds as the administrator. */
  lemma BindDNAdminIff(username: string)
    ensures BindDN(username) == AdminDN <==> username == "admin"
  {
    if username != "admin" {
      assert |BindDN(username)| > |AdminDN|;
    }
  }

  /** Different user names bind with different DNs. */
  lemma BindDNInjective(u1: string, u2: string)
    requires BindDN(u1) == BindDN(u2)
    ensures u1 == u2
  {
    BindDNAdminIff(u1);
    BindDNAdminIff(u2);
    if u1 != "admin" {
      var d := BindDN(u1);
      assert |u1| == |u2|;
      assert u1 == d[3..3 + |u1|];
      assert u2 == d[3..3 + |u2|];
    }
  }

  datatype AuthOutcome = Authenticated(userDN: string) | NotAuthenticated(error: string)

  /** `authenticateUser`: `connectError` is the failure of obtaining a client,
      if any, and `bind` the directory's answer to a bind (`None` when it
      succeeds, else the error message).  A failed bind is reported, never
      raised. */
  function AuthenticateUser(username: string, password: string, connectError: Option<string>,
                            bind: (string, string) -> Option<string>): (r: AuthOutcome)
    ensures r.Authenticated? <==> connectError.None? && bind(BindDN(username), password).None?
    ensures r.Authenticated? ==> r.userDN == BindDN(username)
    ensures r.Authenticated? && r.userDN == AdminDN ==> username == "admin"
    ensures connectError.Some? ==> r.error == connectError.value
    ensures connectError.None? && bind(BindDN(username), password).Some? ==>
              r.error == bind(BindDN(username), password).value
  {
    BindDNAdminIff(username);
    match connectError
    case Some(msg) => NotAuthenticated(msg)
    case None =>
      match bind(BindDN(username), password)
      case Some(msg) => NotAuthenticated(msg)
      case None => Authenticated(BindDN(username))
  }

  /** What `deleteUser` and `deleteGroup` settle to: `true`, or a
      rejection with the directory's result code. */
  datatype DeleteResult = Deleted | DeleteRejected(code: nat)

  /** `deleteUser` and `deleteGroup` (the same code for either kind of
      entry): one delete request for the given DN, resolved with `true`
      when the directory removes the entry and rejected with its error
      otherwise.  The new directory is returned beside the result. */
  function DeleteRequest(dn: string): Request
  {
    Del(dn)
  }

  function Delete(s: Store, dn: string): (DeleteResult, Store)
  {
    match DeleteEntry(s, DeleteRequest(dn).dn)
    case Stored(s') => (Deleted, s')
    case Failed(code) => (DeleteRejected(code), s)
  }

  /** The delete resolves exactly when the DN names a leaf entry, which is
      then gone while every other entry stays; otherwise the directory is
      unchanged and a missing DN is rejected with noSuchObject. */
  lemma DeleteSpec(s: Store, dn: string)
    ensures Delete(s, dn).0 == Deleted <==> IsLeaf(s, dn)
    ensures Delete(s, dn).0 == Deleted ==>
              dn !in Delete(s, dn).1
              && (forall d :: d != dn ==> (d in Delete(s, dn).1 <==> d in s))
              && (forall d :: d != dn && d in s ==> Delete(s, dn).1[d] == s[d])
    ensures Delete(s, dn).0 != Deleted ==> Delete(s, dn).1 == s
    ensures dn !in s ==> Delete(s, dn).0 == DeleteRejected(NoSuchObject)
  {
    DeleteEntrySpec(s, dn);
  }

  /** `createUser`: an add whose entry is a copy of the attributes. */
  function CreateUserRequest(dn: string, attributes: Obj): Request
  {
    AddEntry(dn, Spread([], attributes))
  }

  /** The new user's entry has exactly the given keys, each with its value. */
  lemma CreateUserEntry(dn: string, attributes: Obj)
    requires UniqueKeys(attributes)
    ensures CreateUserRequest(dn, attributes).AddEntry? && CreateUserRequest(dn, attributes).dn == dn
    ensures forall k :: k in Keys(CreateUserRequest(dn, attributes).entry) <==> k in Keys(attributes)
    ensures forall k :: Get(CreateUserRequest(dn, attributes).entry, k) == Get(attributes, k)
  {
    SpreadKeys([], attributes);
    forall k ensures Get(Spread([], attributes), k) == Get(attributes, k) {
      SpreadGet([], attributes, k);
    }
  }

  /** The object classes a new group gets unless the caller names its own. */
  const GroupClasses := ["groupOfNames", "top"]

  /** The member of a new group: the given one when truthy, otherwise the
      administrator. */
  function GroupMember(attributes: Obj): (m: Value)
    ensures Truthy(m)
    ensures Truthy(Get(attributes, "member")) ==> m == Get(attributes, "member")
  {
    var given := Get(attributes, "member");
    if Truthy(given) then given else Str(AdminDN)
  }

  /** `createGroup`: the default object classes, then the caller's
      attributes, then `member`. */
  function CreateGroupRequest(dn: string, attributes: Obj): Request
  {
    AddEntry(dn, Put(Spread([("objectClass", List(GroupClasses))], attributes), "member", GroupMember(attributes)))
  }

  /** The group entry: `objectClass` comes first and is the caller's when
      given, `member` is always truthy, every other key is the caller's. */
  lemma CreateGroupEntry(dn: string, attributes: Obj)
    requires UniqueKeys(attributes)
    ensures var e := CreateGroupRequest(dn, attributes).entry;
      && Keys(e)[0] == "objectClass"
      && UniqueKeys(e)
      && (forall k :: k in Keys(e) <==> k == "objectClass" || k == "member" || k in Keys(attributes))
      && Get(e, "objectClass") == (if "objectClass" in Keys(attributes) then Get(attributes, "objectClass") else List(GroupClasses))
      && Truthy(Get(e, "member"))
      && (Truthy(Get(attributes, "member")) ==> Get(e, "member") == Get(attributes, "member"))
      && (!Truthy(Get(attributes, "member")) ==> Get(e, "member") == Str(AdminDN))
      && (forall k :: k != "objectClass" && k != "member" ==> Get(e, k) == Get(attributes, k))
  {
    var base: Obj := [("objectClass", List(GroupClasses))];
    assert UniqueKeys(base);
    SpreadKeys(base, attributes);
    var s := Spread(base, attributes);
    assert Keys(base) == ["objectClass"];
    forall k ensures Get(s, k) == if k in Keys(attributes) then Get(attributes, k) else Get(base, k) {
      SpreadGet(base, attributes, k);
    }
    assert Get(base, "objectClass") == List(GroupClasses);
    forall k | k != "objectClass" ensures Get(base, k) == Undefined { assert k !in Keys(base); }
    PutUnique(s, "member", GroupMember(attributes));
    forall k ensures Get(Put(s, "member", GroupMember(attributes)), k) == if k == "member" then GroupMember(attributes) else Get(s, k) {
      PutGet(s, "member", GroupMember(attributes), k);
    }
  }

  /** With the default object classes and a member that is not an empty
      array, the stored group satisfies the `groupOfNames` schema. */
  lemma CreateGroupSchemaOk(dn: string, attributes: Obj)
    requires UniqueKeys(attributes) && "objectClass" !in Keys(attributes)
    requires Get(attributes, "member") != List([])
    ensures SchemaOk(EntryOf(CreateGroupRequest(dn, attributes).entry))
  {
    CreateGroupEntry(dn, attributes);
    var e := CreateGroupRequest(dn, attributes).entry;
    assert "groupOfNames" in Values(List(GroupClasses));
    assert Values(Get(e, "member")) != [];
  }

  /** An empty `member` array is truthy, so it is kept, and the stored group
      then has no member at all: the directory refuses it. */
  lemma CreateGroupEmptyMember(dn: string, attributes: Obj)
    requires UniqueKeys(attributes) && "objectClass" !in Keys(attributes)
    requires Get(attributes, "member") == List([])
    ensures Get(CreateGroupRequest(dn, attributes).entry, "member") == List([])
    ensures !SchemaOk(EntryOf(CreateGroupRequest(dn, attributes).entry))
  {
    CreateGroupEntry(dn, attributes);
    var e := CreateGroupRequest(dn, attributes).entry;
    assert "groupOfNames" in Values(List(GroupClasses));
    assert "objectClass" in Keys(e);
  }

  /** The replace changes of an update: one per key whose value is defined
      and that is not in `skip`, in key order. */
  function ReplaceChanges(updates: Obj, skip: set<string>): seq<Change>
    decreases |updates|
  {
    if |updates| == 0 then []
    else
      var rest := ReplaceChanges(updates[..|updates| - 1], skip);
      var (k, v) := updates[|updates| - 1];
      if !v.Undefined? && k !in skip then rest + [Change(ReplaceValues, k, Values(v))] else rest
  }

  /** The loop of `updateUser` and `updateGroup` that collects the changes. */
  method BuildReplaceChanges(updates: Obj, skip: set<string>) returns (changes: seq<Change>)
    ensures changes == ReplaceChanges(updates, skip)
  {
    changes := [];
    var i := 0;
    while i < |updates|
      invariant 0 <= i <= |updates|
      invariant changes == ReplaceChanges(updates[..i], skip)
    {
      var (k, v) := updates[i];
      assert updates[..i + 1][..i] == updates[..i];
      if !v.Undefined? && k !in skip {
        changes := changes + [Change(ReplaceValues, k, Values(v))];
      }
      i := i + 1;
    }
    assert updates[..|updates|] == updates;
  }

  /** A key the update sets: present, defined and not skipped. */
  predicate Replaced(updates: Obj, skip: set<string>, k: string) {
    k in Keys(updates) && !Get(updates, k).Undefined? && k !in skip
  }

  /** `updateUser`: a modify with the changes, or no request when there
      are none. */
  method UpdateUser(dn: string, updates: Obj) returns (r: Request)
    ensures r == (if ReplaceChanges(updates, {}) == [] then NoRequest else Modify(dn, ReplaceChanges(updates, {})))
  {
    var changes := BuildReplaceChanges(updates, {});
    if |changes| == 0 {
      r := NoRequest;
    } else {
      r := Modify(dn, changes);
    }
  }

  /** `updateGroup`: as `updateUser`, but `member` is never changed. */
  method UpdateGroup(dn: string, updates: Obj) returns (r: Request)
    ensures r == (if ReplaceChanges(updates, {"member"}) == [] then NoRequest else Modify(dn, ReplaceChanges(updates, {"member"})))
  {
    var changes := BuildReplaceChanges(updates, {"member"});
    if |changes| == 0 {
      r := NoRequest;
    } else {
      r := Modify(dn, changes);
    }
  }

  /** Every change is a replace of a non-skipped key with that key's value. */
  lemma {:induction false} ReplaceChangesSound(updates: Obj, skip: set<string>)
    ensures forall j :: 0 <= j < |ReplaceChanges(updates, skip)| ==>
      var c := ReplaceChanges(updates, skip)[j];
      && c.op == ReplaceValues && c.attr !in skip
      && exists i :: 0 <= i < |updates| && updates[i].0 == c.attr && !updates[i].1.Undefined?
                     && c.values == Values(updates[i].1)
    decreases |updates|
  {
    if |updates| > 0 {
      var n := |updates| - 1;
      ReplaceChangesSound(updates[..n], skip);
      var rest := ReplaceChanges(updates[..n], skip);
      forall j | 0 <= j < |rest|
        ensures exists i :: 0 <= i < |updates| && updates[i].0 == rest[j].attr && !updates[i].1.Undefined?
                            && rest[j].values == Values(updates[i].1)
      {
        var i :| 0 <= i < n && updates[..n][i].0 == rest[j].attr && !updates[..n][i].1.Undefined?
                 && rest[j].values == Values(updates[..n][i].1);
        assert updates[..n][i] == updates[i];
      }
    }
  }

  /** Every defined, non-skipped entry of the update has its change. */
  lemma {:induction false} ReplaceChangesComplete(updates: Obj, skip: set<string>, i: nat)
    requires i < |updates| && !updates[i].1.Undefined? && updates[i].0 !in skip
    ensures exists j :: 0 <= j < |ReplaceChanges(updates, skip)|
                        && ReplaceChanges(updates, skip)[j] == Change(ReplaceValues, updates[i].0, Values(updates[i].1))
    decreases |updates|
  {
    var n := |updates| - 1;
    var rest := ReplaceChanges(updates[..n], skip);
    if i < n {
      assert updates[..n][i] == updates[i];
      ReplaceChangesComplete(updates[..n], skip, i);
      var j :| 0 <= j < |rest| && rest[j] == Change(ReplaceValues, updates[i].0, Values(updates[i].1));
      assert ReplaceChanges(updates, skip)[j] == rest[j];
    } else {
      assert ReplaceChanges(updates, skip)[|rest|] == Change(ReplaceValues, updates[i].0, Values(updates[i].1));
    }
  }

  /** The changes follow the order of the keys. */
  lemma {:induction false} ReplaceChangesOrdered(updates: Obj, skip: set<string>, a: nat, b: nat)
    requires a < b < |ReplaceChanges(updates, skip)|
    ensures exists i, j :: 0 <= i < j < |updates| && updates[i].0 == ReplaceChanges(updates, skip)[a].attr
                                                  && updates[j].0 == ReplaceChanges(updates, skip)[b].attr
    decreases |updates|
  {
    var n := |updates| - 1;
    var rest := ReplaceChanges(updates[..n], skip);
    var cs := ReplaceChanges(updates, skip);
    if b < |rest| {
      ReplaceChangesOrdered(updates[..n], skip, a, b);
      var i, j :| 0 <= i < j < n && updates[..n][i].0 == rest[a].attr && updates[..n][j].0 == rest[b].attr;
      assert updates[..n][i] == updates[i] && updates[..n][j] == updates[j];
      assert cs[a] == rest[a] && cs[b] == rest[b];
    } else {
      ReplaceChangesSound(updates[..n], skip);
      var i :| 0 <= i < n && updates[..n][i].0 == rest[a].attr && !updates[..n][i].1.Undefined?
               && rest[a].values == Values(updates[..n][i].1);
      assert updates[..n][i] == updates[i];
      assert cs[a] == rest[a] && cs[b].attr == updates[n].0;
    }
  }

  /** There is no change exactly when no key is set. */
  lemma ReplaceChangesEmpty(updates: Obj, skip: set<string>)
    ensures ReplaceChanges(updates, skip) == [] <==> forall i :: 0 <= i < |updates| ==> updates[i].1.Undefined? || updates[i].0 in skip
  {
    ReplaceChangesSound(updates, skip);
    if exists i :: 0 <= i < |updates| && !updates[i].1.Undefined? && updates[i].0 !in skip {
      var i :| 0 <= i < |updates| && !updates[i].1.Undefined? && updates[i].0 !in skip;
      ReplaceChangesComplete(updates, skip, i);
    }
  }

  /** Applying an update to any entry never fails.  A key the update sets
      gets its new values (or is removed when they are an empty array);
      every other attribute is left as it was. */
  lemma {:induction false} UpdateApplied(e: Entry, updates: Obj, skip: set<string>, k: string)
    requires UniqueKeys(updates)
    ensures ApplyAll(e, ReplaceChanges(updates, skip)).Done?
    ensures var e' := ApplyAll(e, ReplaceChanges(updates, skip)).entry;
      if Replaced(updates, skip, k) then
        (Values(Get(updates, k)) == [] ==> k !in e')
        && (Values(Get(updates, k)) != [] ==> k in e' && e'[k] == Values(Get(updates, k)))
      else
        (k in e' <==> k in e) && (k in e ==> e'[k] == e[k])
    decreases |updates|
  {
    var cs := ReplaceChanges(updates, skip);
    if |updates| == 0 {
      assert Keys(updates) == [];
    } else {
      var n := |updates| - 1;
      var init := updates[..n];
      var (k0, v0) := updates[n];
      assert updates == init + [(k0, v0)];
      UniqueInit(updates);
      GetAppend(init, k0, v0, k);
      UpdateApplied(e, init, skip, k);
      var rest := ReplaceChanges(init, skip);
      var mid := ApplyAll(e, rest).entry;
      if !v0.Undefined? && k0 !in skip {
        var c := Change(ReplaceValues, k0, Values(v0));
        ApplyAllAppend(e, rest, c);
      }
    }
  }

  /** Without its last entry an object with distinct keys still has
      them, and the last key is not among the others. */
  lemma UniqueInit(o: Obj)
    requires UniqueKeys(o) && o != []
    ensures var n := |o| - 1;
      UniqueKeys(o[..n]) && o[n].0 !in Keys(o[..n]) && Keys(o) == Keys(o[..n]) + [o[n].0]
  {
    var n := |o| - 1;
    var init := o[..n];
    forall i, j | 0 <= i < j < n ensures init[i].0 != init[j].0 { assert init[i] == o[i] && init[j] == o[j]; }
    forall i | 0 <= i < n ensures Keys(init)[i] != o[n].0 { assert init[i] == o[i]; }
  }

  /** The changes of a modify after those of another. */
  lemma {:induction false} ApplyAllAppend(e: Entry, cs: seq<Change>, c: Change)
    requires ApplyAll(e, cs).Done?
    ensures ApplyAll(e, cs + [c]) == Apply(ApplyAll(e, cs).entry, c)
    decreases |cs|
  {
    if cs == [] {
      assert [c][1..] == [];
    } else {
      assert (cs + [c])[1..] == cs[1..] + [c];
      ApplyAllAppend(Apply(e, cs[0]).entry, cs[1..], c);
    }
  }

  /** A group update never touches the members. */
  lemma UpdateGroupKeepsMembers(e: Entry, updates: Obj)
    requires UniqueKeys(updates)
    ensures ApplyAll(e, ReplaceChanges(updates, {"member"})).Done?
    ensures var e' := ApplyAll(e, ReplaceChanges(updates, {"member"})).entry;
      ("member" in e' <==> "member" in e) && ("member" in e ==> e'["member"] == e["member"])
  {
    UpdateApplied(e, updates, {"member"}, "member");
  }

  /** `addUserToGroup`: one `add` of the user to `member`. */
  function AddUserToGroupRequest(groupDN: string, userDN: string): Request
  {
    Modify(groupDN, [Change(AddValues, "member", [userDN])])
  }

  /** `removeUserFromGroup`: one `delete` of the user from `member`. */
  function RemoveUserFromGroupRequest(groupDN: string, userDN: string): Request
  {
    Modify(groupDN, [Change(DeleteValues, "member", [userDN])])
  }

  /** Adding a user who is not a member of a valid group and removing them
      again leaves the group as it was; adding a member twice is refused. */
  lemma MembershipRoundTrip(e: Entry, groupDN: string, userDN: string)
    requires SchemaOk(e) && "member" in e && e["member"] != []
    ensures userDN !in e["member"] ==>
      && ModifyEntry(e, AddUserToGroupRequest(groupDN, userDN).changes).Done?
      && ModifyEntry(ModifyEntry(e, AddUserToGroupRequest(groupDN, userDN).changes).entry,
                     RemoveUserFromGroupRequest(groupDN, userDN).changes) == Done(e)
    ensures userDN in e["member"] ==>
      ModifyEntry(e, AddUserToGroupRequest(groupDN, userDN).changes) == Refused(AttributeOrValueExists)
  {
    if userDN !in e["member"] {
      AddThenDeleteMember(e, userDN);
    } else {
      AddExistingMemberRefused(e, userDN);
    }
  }
}
