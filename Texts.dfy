/** Text as both clients hold it. A Java String is a sequence of UTF-16
    code units; a C string is modelled the same way, one unit per `char`,
    holding the char's unsigned value. */
module Texts {
  /** One Java `char`. */
  type CodeUnit = u: int | 0 <= u < 0x1_0000
  type Byte = b: int | 0 <= b < 0x100
  type Text = seq<CodeUnit>

  /** A source literal as code units (every literal used here is ASCII). */
  function Lit(s: string): (t: Text)
    ensures |t| == |s|
    ensures forall i :: 0 <= i < |s| && s[i] as int < 0x1_0000 ==> t[i] == s[i] as int
  {
    seq(|s|, i requires 0 <= i < |s| => (s[i] as int) % 0x1_0000)
  }
}
