/** encryptString, decryptString and the JSON mappers of the C client's
    crypto file. OpenSSL (MD5 of the key, AES-128-CBC, Base64 and the
    `strip` around it) and json-c's serialiser are a Cipher handed in by
    the caller; what this module fixes is everything the file does around
    them. */
module CryptoJson {
  import opened Wrappers
  import opened Texts
  import opened JsonValues
  import opened CryptoStrings

  /** Which EVP call failed. */
  datatype Stage = InitStage | UpdateStage | FinalStage

  datatype Sealed = Sealed(text: Text) | SealFailed(stage: Stage)

  /** What the decrypting calls leave: the plaintext as strlen sees it and
      the byte count the EVP calls report. */
  datatype Opened = Opened(plain: Text, plainLen: nat) | OpenFailed(stage: Stage)

  datatype Cipher = Cipher(
    /** MD5 of the key, AES-128-CBC with the fixed IV, Base64, strip. */
    seal: (Text, Text) -> Sealed,
    /** strip, a newline appended, Base64 decoding, AES-128-CBC. */
    open: (Text, Text) -> Opened,
    /** json_object_to_json_string. */
    toJsonString: Json -> Text)

  function EncryptError(stage: Stage): Text
  {
    match stage
    case InitStage => Lit("ERROR in EVP_EncryptInit_ex")
    case UpdateStage => Lit("ERROR in EVP_EncryptUpdate")
    case FinalStage => Lit("ERROR in EVP_EncryptFinal_ex")
  }

  function DecryptError(stage: Stage): Text
  {
    match stage
    case InitStage => Lit("ERROR in EVP_DecryptInit_ex")
    case UpdateStage => Lit("ERROR in EVP_DecryptUpdate")
    case FinalStage => Lit("ERROR in EVP_DecryptFinal_ex")
  }

  /** encryptString: the padded input goes to the cipher; a failing EVP
      call is reported by returning its error message as the result. */
  function EncryptString(c: Cipher, key: Text, input: Text): (r: Text)
    ensures c.seal(key, Padded(input)).Sealed? ==> r == c.seal(key, Padded(input)).text
    ensures c.seal(key, Padded(input)).SealFailed? ==> r == EncryptError(c.seal(key, Padded(input)).stage)
  {
    match c.seal(key, Padded(input))
    case Sealed(t) => t
    case SealFailed(stage) => EncryptError(stage)
  }

  /** decryptString: the plaintext cut to the reported length when that is
      shorter, then trimmed on the right; a failing EVP call returns its
      error message untrimmed. */
  function DecryptString(c: Cipher, key: Text, encrypted: Text): (r: Text)
    ensures c.open(key, encrypted).Opened? ==>
      var plain := c.open(key, encrypted).plain;
      |r| <= |plain| && r == plain[..|r|] && (|r| == 0 || !IsSpace(r[|r| - 1]))
  {
    match c.open(key, encrypted)
    case OpenFailed(stage) => DecryptError(stage)
    case Opened(plain, n) =>
      var ret := if n < |plain| then Substring(Some(plain), 0, n).value else plain;
      TrimRight(ret)
  }

  /** The result of a successful decryption is the plaintext, cut to the
      reported length, with its trailing white space removed. */
  lemma DecryptStringTrims(c: Cipher, key: Text, encrypted: Text)
    requires c.open(key, encrypted).Opened?
    ensures var o := c.open(key, encrypted);
            var n := Min(o.plainLen, |o.plain|);
            DecryptString(c, key, encrypted) == TrimRight(o.plain[..n])
  {
    var o := c.open(key, encrypted);
    if o.plainLen >= |o.plain| {
      assert o.plain[..|o.plain|] == o.plain;
    }
  }

  /** When the cipher gives back what it sealed, decrypting an encryption
      returns the input without its trailing white space: the padding
      comes off, and so does any blank the message ended with. encryptString
      seals the terminating NUL too, so the length the cipher reports may
      exceed the string's; strlen then cuts the plaintext. */
  lemma DecryptAfterEncrypt(c: Cipher, key: Text, input: Text)
    requires c.seal(key, Padded(input)).Sealed?
    requires c.open(key, c.seal(key, Padded(input)).text).Opened?
    requires c.open(key, c.seal(key, Padded(input)).text).plain == Padded(input)
    requires c.open(key, c.seal(key, Padded(input)).text).plainLen >= |Padded(input)|
    ensures DecryptString(c, key, EncryptString(c, key, input)) == TrimRight(input)
    ensures (|input| == 0 || !IsSpace(input[|input| - 1])) ==> DecryptString(c, key, EncryptString(c, key, input)) == input
  {
    PaddingTrimmed(input);
  }

  // ---------------------------------------------------------------------
  // Objects

  /** A fresh object with the members of `ms` added one by one,
      json_object_object_add style, each value replaced by f of it. */
  function AddedAll(ms: seq<Member>, f: Json -> Json): (r: seq<Member>)
    ensures |r| <= |ms|
    ensures ms != [] ==> |r| > 0
    decreases |ms|
  {
    if ms == [] then []
    else
      var last := ms[|ms| - 1];
      ObjectAdd(AddedAll(ms[..|ms| - 1], f), last.key, f(last.value))
  }

  lemma HasKeyAppend(ms: seq<Member>, m: Member, k: Text)
    ensures HasKey(ms + [m], k) <==> HasKey(ms, k) || m.key == k
  {
    if HasKey(ms + [m], k) {
      var i :| 0 <= i < |ms + [m]| && (ms + [m])[i].key == k;
      if i < |ms| {
        assert ms[i].key == k;
      }
    }
    if HasKey(ms, k) {
      var i :| 0 <= i < |ms| && ms[i].key == k;
      assert (ms + [m])[i].key == k;
    }
    assert (ms + [m])[|ms|] == m;
  }

  lemma SameKeysSameHas(a: seq<Member>, b: seq<Member>, k: Text)
    requires |a| == |b| && forall i :: 0 <= i < |a| ==> a[i].key == b[i].key
    ensures HasKey(a, k) <==> HasKey(b, k)
  {
    if HasKey(a, k) {
      var i :| 0 <= i < |a| && a[i].key == k;
      assert b[i].key == k;
    }
    if HasKey(b, k) {
      var i :| 0 <= i < |b| && b[i].key == k;
      assert a[i].key == k;
    }
  }

  /** Adding keeps the keys distinct. */
  lemma ObjectAddDistinct(ms: seq<Member>, k: Text, v: Json)
    requires DistinctKeys(ms)
    ensures DistinctKeys(ObjectAdd(ms, k, v))
  {
    var r := ObjectAdd(ms, k, v);
    if HasKey(ms, k) {
      assert forall i :: 0 <= i < |r| ==> r[i].key == ms[i].key;
    } else {
      forall i, j | 0 <= i < j < |r|
        ensures r[i].key != r[j].key
      {
        if j == |ms| {
          assert r[j].key == k && r[i] == ms[i];
        }
      }
    }
  }

  /** Adding adds exactly the key given. */
  lemma ObjectAddHasKey(ms: seq<Member>, k: Text, v: Json, key: Text)
    ensures HasKey(ObjectAdd(ms, k, v), key) <==> HasKey(ms, key) || key == k
  {
    var r := ObjectAdd(ms, k, v);
    if HasKey(ms, k) {
      SameKeysSameHas(r, ms, key);
      assert HasKey(r, k);
    } else {
      HasKeyAppend(ms, Member(k, v), key);
    }
  }

  /** The object built holds each key once. */
  lemma {:induction false} AddedAllDistinctKeys(ms: seq<Member>, f: Json -> Json)
    ensures DistinctKeys(AddedAll(ms, f))
    decreases |ms|
  {
    if ms != [] {
      var init := ms[..|ms| - 1];
      var last := ms[|ms| - 1];
      assert AddedAll(ms, f) == ObjectAdd(AddedAll(init, f), last.key, f(last.value));
      AddedAllDistinctKeys(init, f);
      ObjectAddDistinct(AddedAll(init, f), last.key, f(last.value));
    }
  }

  /** The object built has the input's key set. */
  lemma {:induction false} AddedAllKeys(ms: seq<Member>, f: Json -> Json, key: Text)
    ensures HasKey(AddedAll(ms, f), key) <==> HasKey(ms, key)
    decreases |ms|
  {
    if ms != [] {
      var init := ms[..|ms| - 1];
      var last := ms[|ms| - 1];
      assert AddedAll(ms, f) == ObjectAdd(AddedAll(init, f), last.key, f(last.value));
      AddedAllKeys(init, f, key);
      ObjectAddHasKey(AddedAll(init, f), last.key, f(last.value), key);
      assert init + [last] == ms;
      HasKeyAppend(init, last, key);
    }
  }

  /** When the input holds each key once, the object built is the input
      with every value mapped, member for member, in order. */
  lemma {:induction false} AddedAllDistinct(ms: seq<Member>, f: Json -> Json)
    requires DistinctKeys(ms)
    ensures |AddedAll(ms, f)| == |ms|
    ensures forall i :: 0 <= i < |ms| ==> AddedAll(ms, f)[i] == Member(ms[i].key, f(ms[i].value))
    decreases |ms|
  {
    if ms != [] {
      var init := ms[..|ms| - 1];
      var last := ms[|ms| - 1];
      var prev := AddedAll(init, f);
      AddedAllDistinct(init, f);
      assert !HasKey(prev, last.key) by {
        forall i | 0 <= i < |prev|
          ensures prev[i].key != last.key
        {
          assert prev[i].key == ms[i].key;
        }
      }
    }
  }

  /** What encryptJSONObject puts under each key: the encryption of the
      value's JSON text, as a string. */
  function EncryptValue(c: Cipher, key: Text): (f: Json -> Json)
    ensures forall v :: f(v).JString?
  {
    v => JString(EncryptString(c, key, c.toJsonString(v)))
  }

  /** What the decrypting mappers put in place of each value: the
      decryption of its JSON text without the surrounding quotes. */
  function DecryptValue(c: Cipher, key: Text): (f: Json -> Json)
    ensures forall v :: f(v).JString?
  {
    v => JString(DecryptString(c, key, StringForDecrypt(c.toJsonString(v))))
  }

  /** A value that decrypts comes back as the plaintext, cut at its
      length, without trailing white space. */
  lemma DecryptValueTrimmed(c: Cipher, key: Text, v: Json)
    requires c.open(key, StringForDecrypt(c.toJsonString(v))).Opened?
    ensures var o := c.open(key, StringForDecrypt(c.toJsonString(v)));
            DecryptValue(c, key)(v).s == TrimRight(o.plain[..Min(o.plainLen, |o.plain|)])
    ensures var s := DecryptValue(c, key)(v).s; |s| == 0 || !IsSpace(s[|s| - 1])
  {
    DecryptStringTrims(c, key, StringForDecrypt(c.toJsonString(v)));
  }

  /** The foreach of encryptJSONObject and decryptJSONObject: add
      f(value) under each key to a fresh object. */
  method MapObject(input: Json, f: Json -> Json) returns (r: Json)
    requires input.JObject?
    ensures r == JObject(AddedAll(input.members, f))
  {
    var ms := input.members;
    var myObject: seq<Member> := [];
    var i := 0;
    while i < |ms|
      invariant 0 <= i <= |ms|
      invariant myObject == AddedAll(ms[..i], f)
    {
      assert ms[..i + 1][..i] == ms[..i];
      myObject := ObjectAdd(myObject, ms[i].key, f(ms[i].value));
      i := i + 1;
    }
    assert ms[..|ms|] == ms;
    r := JObject(myObject);
  }

  method EncryptJsonObject(c: Cipher, key: Text, input: Json) returns (r: Json)
    requires input.JObject?
    ensures r == JObject(AddedAll(input.members, EncryptValue(c, key)))
  {
    r := MapObject(input, EncryptValue(c, key));
  }

  method DecryptJsonObject(c: Cipher, key: Text, input: Json) returns (r: Json)
    requires input.JObject?
    ensures r == DecryptedObject(c, key, input)
  {
    r := MapObject(input, DecryptValue(c, key));
  }

  function DecryptedObject(c: Cipher, key: Text, input: Json): (r: Json)
    requires input.JObject?
    ensures r.JObject? && |r.members| <= |input.members|
    ensures input.members != [] ==> |r.members| > 0
  {
    JObject(AddedAll(input.members, DecryptValue(c, key)))
  }

  /** The decrypted object holds exactly the keys of the input. */
  lemma DecryptedObjectKeys(c: Cipher, key: Text, input: Json, k: Text)
    requires input.JObject?
    ensures HasKey(DecryptedObject(c, key, input).members, k) <==> HasKey(input.members, k)
  {
    AddedAllKeys(input.members, DecryptValue(c, key), k);
  }

  // ---------------------------------------------------------------------
  // Arrays

  function MapItems(items: seq<Json>, f: Json -> Json): (r: seq<Json>)
  {
    seq(|items|, i requires 0 <= i < |items| => f(items[i]))
  }

  /** The loop of encryptJSONArray and decryptJSONArray: append f of each
      element to a fresh array. */
  method MapArray(input: Json, f: Json -> Json) returns (r: Json)
    requires input.JArray?
    ensures r.JArray? && |r.items| == |input.items|
    ensures forall i :: 0 <= i < |input.items| ==> r.items[i] == f(input.items[i])
  {
    var items := input.items;
    var myArray: seq<Json> := [];
    var i := 0;
    while i < |items|
      invariant 0 <= i <= |items|
      invariant |myArray| == i
      invariant forall j :: 0 <= j < i ==> myArray[j] == f(items[j])
    {
      myArray := myArray + [f(items[i])];
      i := i + 1;
    }
    r := JArray(myArray);
  }

  method EncryptJsonArray(c: Cipher, key: Text, input: Json) returns (r: Json)
    requires input.JArray?
    ensures r.JArray? && |r.items| == |input.items|
    ensures forall i :: 0 <= i < |input.items| ==> r.items[i] == EncryptValue(c, key)(input.items[i])
  {
    r := MapArray(input, EncryptValue(c, key));
  }

  method DecryptJsonArray(c: Cipher, key: Text, input: Json) returns (r: Json)
    requires input.JArray?
    ensures r == DecryptedArray(c, key, input)
  {
    r := MapArray(input, DecryptValue(c, key));
  }

  function DecryptedArray(c: Cipher, key: Text, input: Json): (r: Json)
    requires input.JArray?
    ensures r.JArray? && |r.items| == |input.items|
    ensures forall i :: 0 <= i < |input.items| ==> r.items[i] == DecryptValue(c, key)(input.items[i])
  {
    JArray(MapItems(input.items, DecryptValue(c, key)))
  }

  // ---------------------------------------------------------------------
  // decrypt and decryptHistry

  /** decrypt: only element 0 of the message array is looked at; an
      object or an array is mapped, a string decrypted; anything else, and
      an empty message, leaves the fresh empty object. */
  function Decrypt(c: Cipher, key: Text, msg: Json): (r: Json)
    requires msg.JArray?
    ensures r.JObject? || r.JArray? || r.JString?
    ensures |msg.items| == 0 ==> r == JObject([])
  {
    if |msg.items| == 0 then JObject([])
    else
      var first := msg.items[0];
      if first.JObject? then DecryptedObject(c, key, first)
      else if first.JArray? then DecryptedArray(c, key, first)
      else if first.JString? then DecryptValue(c, key)(first)
      else JObject([])
  }

  /** decrypt keeps the shape of element 0: an object comes back as an
      object over the same keys, an array as an array of the same length,
      a string as a string; any other element 0, or none, as {}. */
  lemma DecryptKeepsShape(c: Cipher, key: Text, msg: Json, k: Text)
    requires msg.JArray?
    ensures var r := Decrypt(c, key, msg);
      if |msg.items| == 0 then r == JObject([])
      else
        var first := msg.items[0];
        (first.JObject? ==> r.JObject? && (HasKey(r.members, k) <==> HasKey(first.members, k)) && DistinctKeys(r.members)) &&
        (first.JArray? ==> r.JArray? && |r.items| == |first.items|) &&
        (first.JString? ==> r.JString?) &&
        (!first.JObject? && !first.JArray? && !first.JString? ==> r == JObject([]))
    ensures Decrypt(c, key, msg) == Decrypt(c, key, JArray(msg.items[..Min(1, |msg.items|)]))
  {
    if |msg.items| > 0 && msg.items[0].JObject? {
      AddedAllKeys(msg.items[0].members, DecryptValue(c, key), k);
      AddedAllDistinctKeys(msg.items[0].members, DecryptValue(c, key));
    }
  }

  /** One round of decryptHistry's loop: objects and arrays are decrypted;
      for anything else `encrypted` keeps the value of the round before. */
  function HistoryItem(c: Cipher, key: Text, item: Json, prev: Json): (r: Json)
    ensures item.JObject? ==> r.JObject? && |r.members| <= |item.members|
    ensures item.JArray? ==> r.JArray? && |r.items| == |item.items|
    ensures !item.JObject? && !item.JArray? ==> r == prev
  {
    if item.JObject? then DecryptedObject(c, key, item)
    else if item.JArray? then DecryptedArray(c, key, item)
    else prev
  }

  /** The elements decryptHistry appends for `items`, `prev` being the
      value `encrypted` holds when it reaches them. */
  function HistoryFrom(c: Cipher, key: Text, items: seq<Json>, prev: Json): (r: seq<Json>)
    ensures |r| == |items|
  {
    if items == [] then []
    else
      var e := HistoryItem(c, key, items[0], prev);
      [e] + HistoryFrom(c, key, items[1..], e)
  }

  /** decryptHistry: the array of what the loop appends, one element
      per element of the history. */
  function DecryptHistory(c: Cipher, key: Text, msg: Json): (r: Json)
    requires msg.JArray?
    ensures r.JArray? && |r.items| == |msg.items|
  {
    JArray(HistoryFrom(c, key, msg.items, JObject([])))
  }

  /** What decryptHistry puts at index i of its output r: object and
      array elements decrypted in place; any other element repeats the
      output before it, or `prev` at the front. */
  predicate HistoryAt(c: Cipher, key: Text, items: seq<Json>, prev: Json, r: seq<Json>, i: nat)
    requires i < |items| && |r| == |items|
  {
    r[i] == (if items[i].JObject? then DecryptedObject(c, key, items[i])
             else if items[i].JArray? then DecryptedArray(c, key, items[i])
             else if i == 0 then prev else r[i - 1])
  }

  lemma {:induction false} HistoryFromShape(c: Cipher, key: Text, items: seq<Json>, prev: Json)
    ensures forall i :: 0 <= i < |items| ==> HistoryAt(c, key, items, prev, HistoryFrom(c, key, items, prev), i)
    decreases |items|
  {
    if items != [] {
      var e := HistoryItem(c, key, items[0], prev);
      var rest := HistoryFrom(c, key, items[1..], e);
      HistoryFromShape(c, key, items[1..], e);
      var r := HistoryFrom(c, key, items, prev);
      assert r == [e] + rest;
      forall i | 0 <= i < |items|
        ensures HistoryAt(c, key, items, prev, r, i)
      {
        if i == 0 {
          assert r[0] == e;
        } else {
          assert HistoryAt(c, key, items[1..], e, rest, i - 1);
          assert items[1..][i - 1] == items[i];
          assert r[i] == rest[i - 1];
          if i == 1 {
            assert r[0] == e;
          } else {
            assert r[i - 1] == rest[i - 2];
          }
        }
      }
    }
  }

  /** decryptHistry: an array as long as the input, each element as
      HistoryAt says, starting from the fresh empty object. */
  lemma DecryptHistoryShape(c: Cipher, key: Text, msg: Json)
    requires msg.JArray?
    ensures DecryptHistory(c, key, msg).JArray? && |DecryptHistory(c, key, msg).items| == |msg.items|
    ensures forall i :: 0 <= i < |msg.items| ==> HistoryAt(c, key, msg.items, JObject([]), DecryptHistory(c, key, msg).items, i)
  {
    HistoryFromShape(c, key, msg.items, JObject([]));
  }

  /** One turn of the loop of decryptHistry: element i appended, the
      rest of the output then follows from element i + 1. */
  lemma HistoryStep(c: Cipher, key: Text, items: seq<Json>, i: nat, prev: Json, done: seq<Json>)
    requires i < |items|
    ensures var e := HistoryItem(c, key, items[i], prev);
      done + HistoryFrom(c, key, items[i..], prev) == (done + [e]) + HistoryFrom(c, key, items[i + 1..], e)
  {
    var e := HistoryItem(c, key, items[i], prev);
    assert items[i..][1..] == items[i + 1..];
    var tail := HistoryFrom(c, key, items[i + 1..], e);
    assert HistoryFrom(c, key, items[i..], prev) == [e] + tail;
    assert done + ([e] + tail) == (done + [e]) + tail;
  }

  /** The loop of decryptHistry. */
  method DecryptHistry(c: Cipher, key: Text, msg: Json) returns (r: Json)
    requires msg.JArray?
    ensures r == DecryptHistory(c, key, msg)
  {
    var items := msg.items;
    var myArray: seq<Json> := [];
    var encrypted := JObject([]);
    var i := 0;
    while i < |items|
      invariant 0 <= i <= |items|
      invariant myArray + HistoryFrom(c, key, items[i..], encrypted) == HistoryFrom(c, key, items, JObject([]))
    {
      var obj := items[i];
      ghost var prev := encrypted;
      if obj.JObject? {
        encrypted := DecryptJsonObject(c, key, obj);
      } else if obj.JArray? {
        encrypted := DecryptJsonArray(c, key, obj);
      }
      HistoryStep(c, key, items, i, prev, myArray);
      myArray := myArray + [encrypted];
      i := i + 1;
    }
    r := JArray(myArray);
  }
}
