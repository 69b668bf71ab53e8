/**
 * The JavaScript values that the request builders pass around: attribute
 * values (absent, one string, or an array of strings) and plain objects,
 * whose own keys keep their insertion order.
 */
module JsValues {
  import opened JsText

  datatype Option<T> = None | Some(value: T)

  /** An attribute value: `undefined`, a string, or an array of strings. */
  datatype Value = Undefined | Str(s: string) | List(items: seq<string>)

  /** JavaScript truthiness: `undefined` and `""` are false, every array
      (also `[]`) is true. */
  predicate Truthy(v: Value) {
    match v
    case Undefined => false
    case Str(s) => s != ""
    case List(_) => true
  }

  /** `a || b` on attribute values. */
  function Or(a: Value, b: Value): Value {
    if Truthy(a) then a else b
  }

  /** A plain object: its own keys, in insertion order, with their values. */
  type Obj = seq<(string, Value)>

  function Keys(o: Obj): (ks: seq<string>)
    ensures |ks| == |o| && forall i :: 0 <= i < |o| ==> ks[i] == o[i].0
  {
    seq(|o|, i requires 0 <= i < |o| => o[i].0)
  }

  predicate UniqueKeys(o: Obj) {
    forall i, j :: 0 <= i < j < |o| ==> o[i].0 != o[j].0
  }

  lemma KeysCons(x: (string, Value), o: Obj)
    ensures Keys([x] + o) == [x.0] + Keys(o)
  {
  }

  /** `o[k]`: the value stored under `k`, `undefined` when `k` is not a key. */
  function Get(o: Obj, k: string): (v: Value)
    ensures k !in Keys(o) ==> v == Undefined
    ensures forall i :: 0 <= i < |o| && o[i].0 == k && k !in Keys(o[..i]) ==> v == o[i].1
  {
    if |o| == 0 then Undefined
    else if o[0].0 == k then o[0].1
    else
      assert forall i :: 1 <= i < |o| ==> Keys(o[..i]) == [o[0].0] + Keys(o[1..][..i - 1]);
      Get(o[1..], k)
  }

  lemma GetAt(o: Obj, i: nat)
    requires i < |o| && UniqueKeys(o)
    ensures Get(o, o[i].0) == o[i].1
  {
    assert o[i].0 !in Keys(o[..i]) by {
      forall j | 0 <= j < i ensures Keys(o[..i])[j] != o[i].0 { assert Keys(o[..i])[j] == o[j].0; }
    }
  }

  /** The assignment `o[k] = v`: an existing key keeps its place and takes
      the new value, a new key goes to the end. */
  function Put(o: Obj, k: string, v: Value): (r: Obj)
    ensures k in Keys(o) ==> Keys(r) == Keys(o)
    ensures k !in Keys(o) ==> Keys(r) == Keys(o) + [k]
    decreases |o|
  {
    if |o| == 0 then [(k, v)]
    else
      KeysCons(o[0], o[1..]);
      assert o == [o[0]] + o[1..];
      if o[0].0 == k then
        KeysCons((k, v), o[1..]);
        [(k, v)] + o[1..]
      else
        var t := Put(o[1..], k, v);
        KeysCons(o[0], t);
        [o[0]] + t
  }

  /** After the assignment `k` reads `v` and every other key reads what
      it read before. */
  lemma {:induction false} PutGet(o: Obj, k: string, v: Value, k': string)
    ensures Get(Put(o, k, v), k') == if k' == k then v else Get(o, k')
  {
    if |o| > 0 && o[0].0 != k {
      PutGet(o[1..], k, v, k');
      var r := Put(o, k, v);
      assert r[1..] == Put(o[1..], k, v);
    }
  }

  /** Keys stay distinct: an existing key keeps its place, a new one is
      appended. */
  lemma PutUnique(o: Obj, k: string, v: Value)
    requires UniqueKeys(o)
    ensures UniqueKeys(Put(o, k, v))
  {
    var r := Put(o, k, v);
    forall i, j | 0 <= i < j < |r| ensures r[i].0 != r[j].0 {
      assert r[i].0 == Keys(r)[i] && r[j].0 == Keys(r)[j];
      if k !in Keys(o) && j == |o| {
        assert Keys(r)[i] == Keys(o)[i] == o[i].0;
      } else {
        assert Keys(r)[i] == o[i].0 && Keys(r)[j] == o[j].0;
      }
    }
  }

  /** Assigning a key the object does not have appends it. */
  lemma {:induction false} PutNew(o: Obj, k: string, v: Value)
    requires k !in Keys(o)
    ensures Put(o, k, v) == o + [(k, v)]
  {
    if |o| > 0 {
      assert Keys(o) == [o[0].0] + Keys(o[1..]);
      PutNew(o[1..], k, v);
      assert [o[0]] + (o[1..] + [(k, v)]) == o + [(k, v)];
    }
  }

  /** The spread `{...o, ...src}`: each entry of `src` assigned in order. */
  function Spread(o: Obj, src: Obj): Obj
    decreases |src|
  {
    if |src| == 0 then o else Spread(Put(o, src[0].0, src[0].1), src[1..])
  }

  /** The spread keeps the keys of `o` first and in their order, and its
      keys are those of `o` and of `src`. */
  lemma {:induction false} SpreadKeys(o: Obj, src: Obj)
    ensures forall k :: k in Keys(Spread(o, src)) <==> k in Keys(o) || k in Keys(src)
    ensures |Keys(o)| <= |Keys(Spread(o, src))| && Keys(Spread(o, src))[..|Keys(o)|] == Keys(o)
    ensures UniqueKeys(o) ==> UniqueKeys(Spread(o, src))
    decreases |src|
  {
    if |src| > 0 {
      var o' := Put(o, src[0].0, src[0].1);
      assert Keys(src) == [src[0].0] + Keys(src[1..]);
      if UniqueKeys(o) { PutUnique(o, src[0].0, src[0].1); }
      SpreadKeys(o', src[1..]);
      assert Keys(o')[..|Keys(o)|] == Keys(o);
    }
  }

  /** With distinct keys in `src`, a key of `src` takes its value from `src`
      and every other key keeps the value it had in `o`. */
  lemma {:induction false} SpreadGet(o: Obj, src: Obj, k: string)
    requires UniqueKeys(src)
    ensures Get(Spread(o, src), k) == if k in Keys(src) then Get(src, k) else Get(o, k)
    decreases |src|
  {
    if |src| > 0 {
      var o' := Put(o, src[0].0, src[0].1);
      assert Keys(src) == [src[0].0] + Keys(src[1..]);
      assert UniqueKeys(src[1..]) by {
        forall i, j | 0 <= i < j < |src| - 1 ensures src[1..][i].0 != src[1..][j].0 { assert src[1..][i] == src[i + 1]; }
      }
      assert src[0].0 !in Keys(src[1..]) by {
        forall j | 0 <= j < |src| - 1 ensures Keys(src[1..])[j] != src[0].0 { assert src[1..][j] == src[j + 1]; }
      }
      PutGet(o, src[0].0, src[0].1, k);
      SpreadGet(o', src[1..], k);
    }
  }

  /** Reading a key from two objects one after the other. */
  lemma {:induction false} GetConcat(o: Obj, p: Obj, k: string)
    ensures Get(o + p, k) == if k in Keys(o) then Get(o, k) else Get(p, k)
  {
    if |o| > 0 {
      assert (o + p)[1..] == o[1..] + p;
      assert Keys(o) == [o[0].0] + Keys(o[1..]);
      GetConcat(o[1..], p, k);
    } else {
      assert o + p == p;
    }
  }

  /** Reading a key from an object with one more entry at the end. */
  lemma {:induction false} GetAppend(o: Obj, k0: string, v0: Value, k: string)
    ensures Get(o + [(k0, v0)], k) == if k in Keys(o) then Get(o, k) else if k == k0 then v0 else Undefined
  {
    if |o| > 0 {
      assert (o + [(k0, v0)])[1..] == o[1..] + [(k0, v0)];
      assert Keys(o) == [o[0].0] + Keys(o[1..]);
      GetAppend(o[1..], k0, v0, k);
    } else {
      assert Keys(o) == [];
    }
  }

  /** A value of a parsed request body or of the route parameters. */
  datatype Json =
    | JNull
    | JBool(b: bool)
    | JNum(n: int)
    | JStr(s: string)
    | JArr(items: seq<Json>)
    | JObj(fields: seq<(string, Json)>)

  /** JavaScript truthiness of such a value: every array and object is true. */
  predicate JsonTruthy(v: Json) {
    match v
    case JNull => false
    case JBool(b) => b
    case JNum(n) => n != 0
    case JStr(s) => s != ""
    case _ => true
  }
}
