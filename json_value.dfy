/** JSON values as `json.dump` writes them and `json.load` reads them back: an object is the
    list of its members in insertion order, as a Python `dict` keeps them. */
module JsonValue {
  import opened Wrappers

  datatype Json =
    | JNull
    | JBool(b: bool)
    | JNum(n: int)
    | JStr(s: string)
    | JArray(items: seq<Json>)
    | JObject(members: seq<(string, Json)>)

  /** The keys of an object, in order. */
  function Keys(members: seq<(string, Json)>): (ks: seq<string>)
    ensures |ks| == |members| && forall i :: 0 <= i < |ks| ==> ks[i] == members[i].0
  {
    if members == [] then [] else [members[0].0] + Keys(members[1..])
  }

  /** `d.get(key)`: the value bound to `key`, the first binding if there were several. */
  function Get(members: seq<(string, Json)>, key: string): (v: Option<Json>)
  {
    if members == [] then None
    else if members[0].0 == key then Some(members[0].1)
    else Get(members[1..], key)
  }

  /** A key is found exactly when the object has it, and then with a value bound to it. */
  lemma {:induction false} GetFinds(members: seq<(string, Json)>, key: string)
    ensures Get(members, key).None? <==> key !in Keys(members)
    ensures Get(members, key).Some? ==> exists i :: 0 <= i < |members| && members[i] == (key, Get(members, key).value)
  {
    if members != [] && members[0].0 != key {
      GetFinds(members[1..], key);
      var v := Get(members, key);
      if v.Some? {
        var i :| 0 <= i < |members[1..]| && members[1..][i] == (key, v.value);
        assert members[i + 1] == (key, v.value);
      }
      assert Keys(members) == [members[0].0] + Keys(members[1..]);
    }
  }

  /** The value bound to `key` is the one of its first member. */
  lemma {:induction false} GetAt(members: seq<(string, Json)>, key: string, i: nat)
    requires i < |members| && members[i].0 == key
    requires forall j :: 0 <= j < i ==> members[j].0 != key
    ensures Get(members, key) == Some(members[i].1)
  {
    if i > 0 {
      GetAt(members[1..], key, i - 1);
    }
  }

  /** Python's truth value of a loaded JSON value. */
  predicate PyTruth(j: Json) {
    match j
    case JNull => false
    case JBool(b) => b
    case JNum(n) => n != 0
    case JStr(s) => s != ""
    case JArray(items) => items != []
    case JObject(members) => members != []
  }
}
