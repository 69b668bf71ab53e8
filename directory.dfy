/**
 * The directory server as the service sees it: the requests it is sent and,
 * as a reference for what those requests do, the modify semantics of
 * section 4.6 of RFC 4511 over one entry, with the one schema rule the
 * service depends on (a `groupOfNames` entry must hold a `member`, section
 * 3.5 of RFC 4519), and the delete semantics of section 4.8 of RFC 4511
 * over the whole directory.
 */
module Directory {
  import opened JsValues

  /** The modification types of section 4.6 of RFC 4511. */
  datatype ModOp = AddValues | DeleteValues | ReplaceValues

  /** One modification: its type, the attribute and the listed values. */
  datatype Change = Change(op: ModOp, attr: string, values: seq<string>)

  /** A request the service issues: an add of a new entry, a modify with a
      list of changes, a delete of an entry, or nothing at all. */
  datatype Request =
    | AddEntry(dn: string, entry: Obj)
    | Modify(dn: string, changes: seq<Change>)
    | Del(dn: string)
    | NoRequest

  /** The values an attribute carries on the wire: an array as it is, a
      scalar as a one-element list. */
  function Values(v: Value): seq<string>
    requires !v.Undefined?
  {
    if v.List? then v.items else [v.s]
  }

  /** A stored entry: attribute name to its values; an attribute with no
      values is not stored. */
  type Entry = map<string, seq<string>>

  /** LDAP result codes of Appendix A of RFC 4511 that a modify or a delete
      can end with. */
  const NoSuchAttribute: nat := 16
  const NoSuchObject: nat := 32
  const NotAllowedOnNonLeaf: nat := 66
  const AttributeOrValueExists: nat := 20
  const ObjectClassViolation: nat := 65

  datatype Outcome = Done(entry: Entry) | Refused(code: nat)

  /** The entry an add request stores: every key whose value is defined
      and not an empty array, with its values. */
  function EntryOf(o: Obj): (e: Entry)
    ensures forall k :: k in e <==> k in Keys(o) && !Get(o, k).Undefined? && Values(Get(o, k)) != []
    ensures forall k :: k in e ==> e[k] == Values(Get(o, k))
  {
    map k | k in Keys(o) && !Get(o, k).Undefined? && Values(Get(o, k)) != [] :: Values(Get(o, k))
  }

  /** The `member` requirement of `groupOfNames`. */
  predicate SchemaOk(e: Entry) {
    "objectClass" in e && "groupOfNames" in e["objectClass"] ==> "member" in e && e["member"] != []
  }

  /** `xs` without the values listed in `ys`, order kept. */
  function Remove(xs: seq<string>, ys: seq<string>): (r: seq<string>)
    ensures forall x :: x in r <==> x in xs && x !in ys
  {
    if xs == [] then []
    else if xs[0] in ys then Remove(xs[1..], ys)
    else [xs[0]] + Remove(xs[1..], ys)
  }

  /** One modification of section 4.6 of RFC 4511.  `add` refuses a value
      already present, `delete` refuses a value or attribute that is not
      present (with no values it removes the attribute), `replace` sets the
      values (with none it removes the attribute). */
  function Apply(e: Entry, c: Change): Outcome
  {
    var cur := if c.attr in e then e[c.attr] else [];
    match c.op
    case AddValues =>
      if exists v :: v in c.values && v in cur then Refused(AttributeOrValueExists)
      else if cur + c.values == [] then Done(e)
      else Done(e[c.attr := cur + c.values])
    case DeleteValues =>
      if c.attr !in e then Refused(NoSuchAttribute)
      else if c.values == [] then Done(e - {c.attr})
      else if exists v :: v in c.values && v !in cur then Refused(NoSuchAttribute)
      else if Remove(cur, c.values) == [] then Done(e - {c.attr})
      else Done(e[c.attr := Remove(cur, c.values)])
    case ReplaceValues =>
      if c.values == [] then Done(e - {c.attr}) else Done(e[c.attr := c.values])
  }

  /** The changes of one modify request, in order; the first refusal ends
      the request and nothing of it is kept. */
  function ApplyAll(e: Entry, cs: seq<Change>): Outcome
    decreases |cs|
  {
    if cs == [] then Done(e)
    else match Apply(e, cs[0])
      case Refused(code) => Refused(code)
      case Done(e') => ApplyAll(e', cs[1..])
  }

  /** A modify request as the server carries it out: the changes, then the
      schema check on the entry they produce. */
  function ModifyEntry(e: Entry, cs: seq<Change>): Outcome
  {
    match ApplyAll(e, cs)
    case Refused(code) => Refused(code)
    case Done(e') => if SchemaOk(e') then Done(e') else Refused(ObjectClassViolation)
  }

  /** An attribute no change of `cs` names keeps its values. */
  lemma {:induction false} ApplyAllUntouched(e: Entry, cs: seq<Change>, a: string)
    requires ApplyAll(e, cs).Done?
    requires forall j :: 0 <= j < |cs| ==> cs[j].attr != a
    ensures (a in ApplyAll(e, cs).entry <==> a in e)
    ensures a in e ==> ApplyAll(e, cs).entry[a] == e[a]
    decreases |cs|
  {
    if cs != [] {
      assert cs[0].attr != a;
      ApplyAllUntouched(Apply(e, cs[0]).entry, cs[1..], a);
    }
  }

  /** A list of replaces is never refused, and each attribute it names ends
      with the values of the last replace that names it. */
  lemma {:induction false} ApplyAllReplaces(e: Entry, cs: seq<Change>, j: nat)
    requires forall i :: 0 <= i < |cs| ==> cs[i].op == ReplaceValues
    requires j < |cs| && forall i :: j < i < |cs| ==> cs[i].attr != cs[j].attr
    ensures ApplyAll(e, cs).Done?
    ensures cs[j].values == [] ==> cs[j].attr !in ApplyAll(e, cs).entry
    ensures cs[j].values != [] ==> cs[j].attr in ApplyAll(e, cs).entry
                                   && ApplyAll(e, cs).entry[cs[j].attr] == cs[j].values
    decreases |cs|
  {
    var e' := Apply(e, cs[0]).entry;
    if j == 0 {
      ApplyAllReplacesDone(e', cs[1..]);
      ApplyAllUntouched(e', cs[1..], cs[0].attr);
    } else {
      ApplyAllReplaces(e', cs[1..], j - 1);
    }
  }

  lemma {:induction false} ApplyAllReplacesDone(e: Entry, cs: seq<Change>)
    requires forall i :: 0 <= i < |cs| ==> cs[i].op == ReplaceValues
    ensures ApplyAll(e, cs).Done?
    decreases |cs|
  {
    if cs != [] { ApplyAllReplacesDone(Apply(e, cs[0]).entry, cs[1..]); }
  }

  /** Adding a member that is not yet in a valid group and then deleting it
      gives the group back exactly. */
  lemma AddThenDeleteMember(e: Entry, u: string)
    requires SchemaOk(e) && "member" in e && e["member"] != [] && u !in e["member"]
    ensures ModifyEntry(e, [Change(AddValues, "member", [u])]).Done?
    ensures ModifyEntry(ModifyEntry(e, [Change(AddValues, "member", [u])]).entry,
                        [Change(DeleteValues, "member", [u])]) == Done(e)
  {
    var m := e["member"];
    var e1 := e["member" := m + [u]];
    assert !exists v :: v in [u] && v in m;
    assert Apply(e, Change(AddValues, "member", [u])) == Done(e1);
    assert ApplyAll(e1, []) == Done(e1);
    assert [Change(AddValues, "member", [u])][1..] == [];
    assert ApplyAll(e, [Change(AddValues, "member", [u])]) == Done(e1);
    assert SchemaOk(e1);
    RemoveAppendLast(m, u);
    assert (m + [u])[|m|] == u;
    assert !exists v :: v in [u] && v !in m + [u];
    assert Apply(e1, Change(DeleteValues, "member", [u])) == Done(e1["member" := m]);
    assert e1["member" := m] == e;
    assert ApplyAll(e, []) == Done(e);
    assert [Change(DeleteValues, "member", [u])][1..] == [];
    assert ApplyAll(e1, [Change(DeleteValues, "member", [u])]) == Done(e);
  }

  lemma {:induction false} RemoveAppendLast(xs: seq<string>, u: string)
    requires u !in xs
    ensures Remove(xs + [u], [u]) == xs
  {
    if xs != [] {
      assert (xs + [u])[1..] == xs[1..] + [u];
      RemoveAppendLast(xs[1..], u);
    } else {
      assert Remove([u], [u]) == Remove([], [u]);
    }
  }

  /** Adding a value that is already a member is refused. */
  lemma AddExistingMemberRefused(e: Entry, u: string)
    requires "member" in e && u in e["member"]
    ensures ModifyEntry(e, [Change(AddValues, "member", [u])]) == Refused(AttributeOrValueExists)
  {
    assert u in [u];
  }

  /** Deleting the only member of a `groupOfNames` entry is refused: the
      entry would break its object class. */
  lemma DeleteLastMemberRefused(e: Entry, u: string)
    requires "objectClass" in e && "groupOfNames" in e["objectClass"]
    requires "member" in e && e["member"] == [u]
    ensures ModifyEntry(e, [Change(DeleteValues, "member", [u])]) == Refused(ObjectClassViolation)
  {
    assert Remove([u], [u]) == [];
    assert !exists v :: v in [u] && v !in e["member"];
    var e1 := e - {"member"};
    assert Apply(e, Change(DeleteValues, "member", [u])) == Done(e1);
    assert ApplyAll(e1, []) == Done(e1);
    assert [Change(DeleteValues, "member", [u])][1..] == [];
    assert ApplyAll(e, [Change(DeleteValues, "member", [u])]) == Done(e1);
    assert e1["objectClass"] == e["objectClass"];
  }

  // ---------------------------------------------------------------------
  // Delete

  /** The directory's entries, by DN. */
  type Store = map<string, Entry>

  /** `d` names an entry below `dn`: its DN ends with a comma and `dn`.
      DNs are compared as written, without the normalisation of section 4
      of RFC 4514. */
  predicate Below(d: string, dn: string) {
    |d| > |dn| && d[|d| - |dn| - 1] == ',' && d[|d| - |dn|..] == dn
  }

  /** `dn` names an entry and no entry lies below it. */
  predicate IsLeaf(s: Store, dn: string) {
    dn in s && forall d :: d in s ==> !Below(d, dn)
  }

  datatype StoreOutcome = Stored(store: Store) | Failed(code: nat)

  /** A delete request per section 4.8 of RFC 4511: a missing entry gives
      noSuchObject, an entry with entries below it notAllowedOnNonLeaf, and
      a leaf is removed. */
  function DeleteEntry(s: Store, dn: string): StoreOutcome
  {
    if dn !in s then Failed(NoSuchObject)
    else if exists d :: d in s && Below(d, dn) then Failed(NotAllowedOnNonLeaf)
    else Stored(s - {dn})
  }

  /** A delete succeeds exactly on a leaf, removes that entry and no other,
      and leaves every other entry as it was. */
  lemma DeleteEntrySpec(s: Store, dn: string)
    ensures DeleteEntry(s, dn).Stored? <==> IsLeaf(s, dn)
    ensures DeleteEntry(s, dn).Stored? ==>
              dn !in DeleteEntry(s, dn).store
              && (forall d :: d != dn ==> (d in DeleteEntry(s, dn).store <==> d in s))
              && (forall d :: d != dn && d in s ==> DeleteEntry(s, dn).store[d] == s[d])
    ensures dn !in s ==> DeleteEntry(s, dn) == Failed(NoSuchObject)
    ensures dn in s && !IsLeaf(s, dn) ==> DeleteEntry(s, dn) == Failed(NotAllowedOnNonLeaf)
  {
  }

  /** Deleting the same DN twice: the second delete finds nothing and is
      refused with noSuchObject, never a silent success. */
  lemma DeleteTwiceRefused(s: Store, dn: string)
    requires DeleteEntry(s, dn).Stored?
    ensures DeleteEntry(DeleteEntry(s, dn).store, dn) == Failed(NoSuchObject)
  {
  }

  /** An entry whose DN is some other entry's DN with a component in front
      cannot be deleted before that other entry. */
  lemma DeleteParentRefused(s: Store, rdn: string, dn: string)
    requires dn in s && rdn + "," + dn in s
    ensures DeleteEntry(s, dn) == Failed(NotAllowedOnNonLeaf)
  {
    var d := rdn + "," + dn;
    assert d[|d| - |dn| - 1] == ',' && d[|d| - |dn|..] == dn;
    assert Below(d, dn);
  }
}
