/** JSON values as both clients see them: org.json.me on the J2ME side and
    json-c on the C side. An object keeps its members in insertion order,
    as json-c's linked hash table does, and never holds a key twice. */
module JsonValues {
  import opened Texts

  datatype Json =
    | JNull
    | JBool(b: bool)
    | JInt(n: int)
    | JString(s: Text)
    | JArray(items: seq<Json>)
    | JObject(members: seq<Member>)

  datatype Member = Member(key: Text, value: Json)

  predicate DistinctKeys(ms: seq<Member>)
  {
    forall i, j :: 0 <= i < j < |ms| ==> ms[i].key != ms[j].key
  }

  predicate HasKey(ms: seq<Member>, k: Text)
  {
    exists i :: 0 <= i < |ms| && ms[i].key == k
  }

  /** Where key `k` sits among the members, or -1 when it is absent. */
  function KeyIndex(ms: seq<Member>, k: Text): (i: int)
    ensures -1 <= i < |ms|
    ensures i >= 0 ==> ms[i].key == k
    ensures i < 0 <==> !HasKey(ms, k)
  {
    if ms == [] then -1
    else if ms[0].key == k then 0
    else
      var j := KeyIndex(ms[1..], k);
      assert forall i :: 1 <= i < |ms| ==> ms[i] == ms[1..][i - 1];
      if j < 0 then -1 else j + 1
  }

  /** json_object_object_add: replace the value of an existing key in place,
      otherwise append a new member. */
  function ObjectAdd(ms: seq<Member>, k: Text, v: Json): (r: seq<Member>)
    ensures HasKey(ms, k) ==> |r| == |ms| && forall i :: 0 <= i < |ms| ==> r[i].key == ms[i].key
    ensures HasKey(ms, k) ==> forall i :: 0 <= i < |ms| && ms[i].key != k ==> r[i] == ms[i]
    ensures !HasKey(ms, k) ==> r == ms + [Member(k, v)]
    ensures exists i :: 0 <= i < |r| && r[i] == Member(k, v)
  {
    var i := KeyIndex(ms, k);
    if i >= 0 then
      assert ms[i := Member(k, v)][i] == Member(k, v);
      ms[i := Member(k, v)]
    else
      assert (ms + [Member(k, v)])[|ms|] == Member(k, v);
      ms + [Member(k, v)]
  }
}
