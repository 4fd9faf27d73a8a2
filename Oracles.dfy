/** What the J2ME client calls but whose code is not part of this model:
    org.json.me's rendering and number parsing, HMAC-SHA256 and the Java
    PubnubCrypto class. Each is a total function handed in by the caller;
    a call that can throw returns None (or Aborted) for the exception. */
module Oracles {
  import opened Wrappers
  import opened Texts
  import opened JsonValues

  /** PubnubCrypto.decryptJSONArray: its IOException is caught where it is
      called from the history branch, any other exception is not. */
  datatype Decrypted = Plain(value: Json) | IoFailed | Aborted

  datatype Env = Env(
    /** toString() of an org.json.me value. */
    render: Json -> Text,
    /** JSONArray.optInt(1) == 0 for a present element 1. */
    optIntIsZero: Json -> bool,
    /** PubnubCrypto.getHMacSHA256(key, text). */
    hmac: (Text, Text) -> Text,
    encryptObject: Json -> Json,
    encryptString: Text -> Option<Text>,
    encryptArray: Json -> Json,
    decryptObject: Json -> Option<Json>,
    decryptArray: Json -> Decrypted,
    /** PubnubCrypto.decryptJSONArray(null). */
    decryptNull: Decrypted,
    decryptString: Text -> Option<Text>)

  /** JSONArray.getString / optString on a present element: a string is
      its own text, anything else is rendered. */
  function ToText(env: Env, v: Json): (t: Text)
    ensures v.JString? ==> t == v.s
  {
    if v.JString? then v.s else env.render(v)
  }
}
