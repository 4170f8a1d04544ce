/** JSON values as `json.load` hands them to the script, Python truthiness, and the
    dictionary keys the script files records under. */
module JsonValues {

  datatype Option<T> = None | Some(value: T)

  /** One key/value pair of a JSON object, in the object's iteration order. */
  datatype Member = Member(key: string, value: Json)

  /** A parsed JSON value.  Numbers are exact reals (ints and finite floats alike). */
  datatype Json =
    | JStr(s: string)
    | JNum(n: real)
    | JBool(b: bool)
    | JNull
    | JArr(items: seq<Json>)
    | JObj(members: seq<Member>)

  /** Python's `bool(v)` on a parsed JSON value: empty strings, zero, `False`, `None`
      and empty containers are false, everything else is true. */
  predicate Truthy(j: Json) {
    match j
    case JStr(s) => s != ""
    case JNum(n) => n != 0.0
    case JBool(b) => b
    case JNull => false
    case JArr(items) => items != []
    case JObj(members) => members != []
  }

  /** `not d.get(name)` is false exactly when the key is present with a truthy value. */
  predicate TruthyOpt(o: Option<Json>) {
    o.Some? && Truthy(o.value)
  }

  /** `dict.get(key)` over the members of an object: the value of the first member with
      that key (a Python dict holds each key once, so it is the only one). */
  function Lookup(ms: seq<Member>, key: string): (r: Option<Json>)
    ensures r.Some? <==> exists i :: 0 <= i < |ms| && ms[i].key == key
    ensures r.Some? ==> Member(key, r.value) in ms
  {
    if ms == [] then None
    else if ms[0].key == key then Some(ms[0].value)
    else Lookup(ms[1..], key)
  }

  /** The keys of an object's members are pairwise distinct, as in any Python dict. */
  predicate DistinctKeys(ms: seq<Member>) {
    forall i, j :: 0 <= i < j < |ms| ==> ms[i].key != ms[j].key
  }

  /** On a dict, a lookup finds a value exactly when that key/value pair is a member. */
  lemma {:induction false} LookupDistinct(ms: seq<Member>, key: string, v: Json)
    requires DistinctKeys(ms)
    ensures Lookup(ms, key) == Some(v) <==> Member(key, v) in ms
  {
    if ms != [] && ms[0].key != key {
      assert DistinctKeys(ms[1..]) by {
        forall i, j | 0 <= i < j < |ms[1..]| ensures ms[1..][i].key != ms[1..][j].key {
          assert ms[1..][i] == ms[i + 1] && ms[1..][j] == ms[j + 1];
        }
      }
      LookupDistinct(ms[1..], key, v);
      assert Member(key, v) in ms <==> Member(key, v) in ms[1..] by {
        assert ms == [ms[0]] + ms[1..];
      }
    } else if ms != [] {
      if Member(key, v) in ms {
        var i :| 0 <= i < |ms| && ms[i] == Member(key, v);
        assert i == 0;
      }
    }
  }

  /** `record.get(name)` on a record that is a dict. */
  function Get(record: Json, name: string): Option<Json>
    requires record.JObj?
  {
    Lookup(record.members, name)
  }

  /** `record.get(name, default)` on a dict: the value stored under `name` when there is
      one, otherwise the default. */
  function GetOr(record: Json, name: string, default: Json): (r: Json)
    requires record.JObj? && DistinctKeys(record.members)
    ensures forall v :: Member(name, v) in record.members ==> r == v
    ensures (forall i :: 0 <= i < |record.members| ==> record.members[i].key != name) ==> r == default
  {
    assert forall v :: Member(name, v) in record.members ==> Get(record, name) == Some(v) by {
      forall v | Member(name, v) in record.members ensures Get(record, name) == Some(v) {
        LookupDistinct(record.members, name, v);
      }
    }
    match Get(record, name)
    case Some(v) => v
    case None => default
  }

  /** A dictionary key as Python compares it: strings by value, numbers by exact value, and
      `True` as the number 1 (`True == 1 == 1.0` and they hash alike). */
  datatype Key = KStr(s: string) | KNum(n: real)

  /** Values Python can hash; a list or dict used as a key raises `TypeError`. */
  predicate Hashable(j: Json) {
    !j.JArr? && !j.JObj?
  }

  /** The key under which a truthy hashable value is filed in a dict. */
  function KeyOf(j: Json): (k: Key)
    requires Hashable(j) && Truthy(j)
    ensures k.KStr? <==> j.JStr?
    ensures forall s :: k == KStr(s) <==> j == JStr(s)
    ensures j.JNum? ==> k == KNum(j.n)
    ensures j.JBool? ==> k == KNum(1.0)
  {
    match j
    case JStr(s) => KStr(s)
    case JNum(n) => KNum(n)
    case JBool(_) => KNum(1.0)
  }

  /** A record is a dict (its keys distinct, as `json.load` leaves them) whose field `name`,
      if truthy, can be used as a dict key: the only records the script handles without
      raising. */
  predicate KeyableField(record: Json, name: string) {
    record.JObj? && DistinctKeys(record.members) && (TruthyOpt(Get(record, name)) ==> Hashable(Get(record, name).value))
  }

  /** The key a record is filed under: that of its field `name`, and none when the field is
      missing or falsy. */
  function FieldKey(record: Json, name: string): (r: Option<Key>)
    requires KeyableField(record, name)
    ensures r.Some? <==> TruthyOpt(Get(record, name))
    ensures forall s :: r == Some(KStr(s)) <==> Get(record, name) == Some(JStr(s)) && s != ""
  {
    var v := Get(record, name);
    if TruthyOpt(v) then Some(KeyOf(v.value)) else None
  }
}
