/** The string helpers of the C client's crypto file. A C string is the
    Text of its characters up to the terminating NUL; a null pointer is
    None. */
module CryptoStrings {
  import opened Wrappers
  import opened Texts

  /** SIZE_MAX + 1 on a 64-bit target: size_t arithmetic wraps modulo it. */
  const SizeModulus: int := 0x1_0000_0000_0000_0000

  type Size = n: int | 0 <= n < SizeModulus

  const Blank: CodeUnit := 0x20

  function Min(a: int, b: int): int
  {
    if a <= b then a else b
  }

  // ---------------------------------------------------------------------
  // substring

  /** substring as written: `begin + len` is computed in size_t, so a sum
      past SIZE_MAX wraps and slips through the bound check; strndup then
      copies at most len characters, stopping at the end of the string. */
  function SubstringAsWritten(str: Option<Text>, begin: Size, len: Size): (r: Option<Text>)
    requires str.Some? ==> |str.value| < SizeModulus
    ensures r.Some? ==> str.Some? && |r.value| <= len && begin + |r.value| <= |str.value|
                        && r.value == str.value[begin..begin + |r.value|]
  {
    if str.None? || |str.value| == 0 || |str.value| < begin || |str.value| < (begin + len) % SizeModulus then None
    else Some(str.value[begin..begin + Min(len, |str.value| - begin)])
  }

  /** substring with the bound checked without wrap-around: the `len`
      characters from `begin`, or null when the string is null or empty or
      too short. */
  function Substring(str: Option<Text>, begin: nat, len: nat): (r: Option<Text>)
    ensures r.Some? <==> str.Some? && |str.value| > 0 && begin + len <= |str.value|
    ensures r.Some? ==> |r.value| == len
    ensures r.Some? ==> forall i :: 0 <= i < len ==> r.value[i] == str.value[begin + i]
  {
    if str.None? || |str.value| == 0 || |str.value| < begin || |str.value| < begin + len then None
    else Some(str.value[begin..begin + len])
  }

  /** While the sum does not wrap, the code as written is the corrected
      function. */
  lemma SubstringAsWrittenAgrees(str: Option<Text>, begin: Size, len: Size)
    requires str.Some? ==> |str.value| < SizeModulus
    requires begin + len < SizeModulus
    ensures SubstringAsWritten(str, begin, len) == Substring(str, begin, len)
  {
  }

  /** The wrap: asking "abc" for SIZE_MAX characters from index 1 passes
      the check and yields the two characters "bc". */
  lemma SubstringWraps()
    ensures SubstringAsWritten(Some(Lit("abc")), 1, SizeModulus - 1) == Some(Lit("bc"))
    ensures Substring(Some(Lit("abc")), 1, SizeModulus - 1) == None
  {
    var s := Lit("abc");
    assert (1 + (SizeModulus - 1)) % SizeModulus == 0;
    assert s[1..3] == Lit("bc");
  }

  // ---------------------------------------------------------------------
  // rtrim

  /** isspace in the C locale: space, \t, \n, \v, \f, \r. */
  predicate IsSpace(c: CodeUnit)
  {
    c == Blank || 0x09 <= c <= 0x0D
  }

  predicate AllSpace(s: Text)
  {
    forall j :: 0 <= j < |s| ==> IsSpace(s[j])
  }

  /** Where rtrim's `while (isspace(*--back))` stops when it starts at
      `back`: the index of the last non-space character below it, or -1
      once it has stepped to the character before the string. */
  function WalkBack(s: Text, back: nat): (k: int)
    requires back <= |s|
    ensures -1 <= k < back
    ensures k >= 0 ==> !IsSpace(s[k])
    ensures forall j :: k < j < back ==> IsSpace(s[j])
  {
    if back == 0 then -1
    else if IsSpace(s[back - 1]) then WalkBack(s, back - 1)
    else back - 1
  }

  /** rtrim as written. None when the walk reads the character before the
      string, which is undefined behaviour: exactly when the string is
      empty or all white space. */
  function RTrimAsWritten(s: Text): (r: Option<Text>)
    ensures r.None? <==> AllSpace(s)
  {
    var k := WalkBack(s, |s|);
    if k < 0 then None else Some(s[..k + 1])
  }

  /** Trailing white space removed: the prefix up to the last non-space
      character. */
  function TrimRight(s: Text): (r: Text)
    ensures |r| <= |s| && r == s[..|r|]
    ensures forall j :: |r| <= j < |s| ==> IsSpace(s[j])
    ensures |r| > 0 ==> !IsSpace(r[|r| - 1])
    decreases |s|
  {
    if |s| == 0 || !IsSpace(s[|s| - 1]) then s else TrimRight(s[..|s| - 1])
  }

  /** The three properties of TrimRight pin it down: it is the only
      prefix whose removed part is white space and which does not itself
      end in white space. */
  lemma {:induction false} TrimRightUnique(s: Text, r: Text)
    requires |r| <= |s| && r == s[..|r|]
    requires forall j :: |r| <= j < |s| ==> IsSpace(s[j])
    requires |r| > 0 ==> !IsSpace(r[|r| - 1])
    ensures r == TrimRight(s)
    decreases |s|
  {
    if |s| > 0 && IsSpace(s[|s| - 1]) {
      assert |r| < |s|;
      assert s[..|s| - 1][..|r|] == r;
      TrimRightUnique(s[..|s| - 1], r);
    } else if |s| > 0 {
      assert |r| == |s|;
    }
  }

  /** Wherever the code as written is defined, it trims. */
  lemma RTrimAsWrittenTrims(s: Text)
    requires !AllSpace(s)
    ensures RTrimAsWritten(s) == Some(TrimRight(s))
  {
    var k := WalkBack(s, |s|);
    TrimRightUnique(s, s[..k + 1]);
  }

  /** The string rtrim cannot handle: the empty one (and one of blanks),
      which the corrected trim takes to the empty string. */
  lemma RTrimEmptyReadsBefore()
    ensures RTrimAsWritten([]) == None && TrimRight([]) == []
    ensures RTrimAsWritten([Blank]) == None && TrimRight([Blank]) == []
  {
  }

  lemma TrimRightIdempotent(s: Text)
    ensures TrimRight(TrimRight(s)) == TrimRight(s)
  {
    var t := TrimRight(s);
    TrimRightUnique(t, t);
  }

  /** rtrim with the walk stopped at the start of the buffer: `buf` holds
      a C string of length n (no NUL before index n, a NUL at n); the NUL
      is moved to just after the last non-space character. */
  method RTrim(buf: array<CodeUnit>, n: nat) returns (m: nat)
    requires n < buf.Length && buf[n] == 0
    requires forall j :: 0 <= j < n ==> buf[j] != 0
    modifies buf
    ensures m <= n && buf[..m] == TrimRight(old(buf[..n])) && buf[m] == 0
    ensures forall j :: 0 <= j < buf.Length && j != m ==> buf[j] == old(buf[j])
  {
    ghost var s := buf[..n];
    var back := n;
    while back > 0 && IsSpace(buf[back - 1])
      invariant 0 <= back <= n
      invariant buf[..back] == s[..back]
      invariant TrimRight(s) == TrimRight(s[..back])
    {
      assert s[..back][..back - 1] == s[..back - 1];
      back := back - 1;
    }
    assert TrimRight(s[..back]) == s[..back];
    buf[back] := 0;
    assert buf[..back] == s[..back];
    m := back;
  }

  // ---------------------------------------------------------------------
  // getStringForDecrypt

  /** getStringForDecrypt: the text without its first and last character
      (the quotes json_object_to_json_string puts around a string). */
  function StringForDecrypt(input: Text): (r: Text)
    ensures |input| >= 2 ==> |r| == |input| - 2 && forall i :: 0 <= i < |r| ==> r[i] == input[i + 1]
    ensures |input| < 2 ==> r == []
  {
    if |input| >= 2 then input[1..|input| - 1] else []
  }

  /** The quotes around a string come off and nothing else does. */
  lemma StringForDecryptUnquotes(q: CodeUnit, t: Text)
    ensures StringForDecrypt([q] + t + [q]) == t
  {
    assert ([q] + t + [q])[1..|t| + 1] == t;
  }

  /** strcpy of `src` into a buffer of `size` bytes, from store i on:
      store j writes src[j] for j < |src| and the terminating NUL at
      j == |src|. The result is the index of the first store that falls
      outside the buffer, or None when every store falls inside. */
  function StrcpyOutside(src: Text, size: nat, i: nat): (r: Option<nat>)
    ensures r.Some? ==> i <= r.value <= |src| && size <= r.value
    decreases |src| + 1 - i
  {
    if i > |src| then None
    else if i >= size then Some(i)
    else StrcpyOutside(src, size, i + 1)
  }

  /** Started inside the buffer, strcpy first leaves it at its very end,
      and does so exactly when the string and its NUL do not fit. */
  lemma {:induction false} StrcpyLeavesAtEnd(src: Text, size: nat, i: nat)
    requires i <= size
    ensures StrcpyOutside(src, size, i) == (if size <= |src| then Some(size) else None)
    decreases |src| + 1 - i
  {
    if i <= |src| && i < size {
      StrcpyLeavesAtEnd(src, size, i + 1);
    }
  }

  /** getStringForDecrypt as written copies into malloc(strlen(input)):
      the NUL's store, at index strlen(input), is the first outside the
      buffer, for every input; one more byte of room keeps every store
      inside. */
  lemma CopyOverruns(input: Text)
    ensures StrcpyOutside(input, |input|, 0) == Some(|input|)
    ensures StrcpyOutside(input, |input| + 1, 0) == None
  {
    StrcpyLeavesAtEnd(input, |input|, 0);
    StrcpyLeavesAtEnd(input, |input| + 1, 0);
  }

  /** getStringForDecrypt with room for the terminator: copy the string
      and its NUL into a buffer of strlen + 1, step past the first
      character and end the string before the last. */
  method GetStringForDecrypt(input: Text) returns (r: Text)
    requires forall j :: 0 <= j < |input| ==> input[j] != 0
    ensures r == StringForDecrypt(input)
  {
    var temp := new CodeUnit[|input| + 1];
    var i := 0;
    while i < |input|
      invariant 0 <= i <= |input|
      invariant temp[..i] == input[..i]
    {
      temp[i] := input[i];
      i := i + 1;
    }
    temp[|input|] := 0;
    assert temp[..|input|] == input;
    var len := |input|;
    var start := 0;
    if len > 0 {
      start := 1;
    }
    var end := len;
    if len > 1 {
      temp[start + len - 2] := 0;
      end := start + len - 2;
    }
    r := temp[start..end];
    assert len >= 2 ==> r == input[1..len - 1];
  }

  // ---------------------------------------------------------------------
  // The padding of encryptString

  function Spaces(n: nat): (r: Text)
    ensures |r| == n && forall i :: 0 <= i < n ==> r[i] == Blank
  {
    seq(n, i => Blank)
  }

  /** The string encryptString hands to the cipher: its input followed by
      strlen(input) % 8 blanks (which does not make the length a multiple
      of 8). */
  function Padded(input: Text): (r: Text)
    ensures |r| == |input| + |input| % 8
    ensures r[..|input|] == input
    ensures forall i :: |input| <= i < |r| ==> r[i] == Blank
  {
    input + Spaces(|input| % 8)
  }

  /** The two copy loops of encryptString into a buffer of
      `ans + in_len + 1`, NUL-terminated. */
  method PadForEncrypt(input: Text) returns (buf: array<CodeUnit>)
    ensures fresh(buf)
    ensures buf.Length == |Padded(input)| + 1
    ensures buf[..|Padded(input)|] == Padded(input) && buf[|Padded(input)|] == 0
  {
    var inLen := |input|;
    var ans := inLen % 8;
    buf := new CodeUnit[ans + inLen + 1];
    var i := 0;
    while i < inLen
      invariant 0 <= i <= inLen
      invariant buf[..i] == input[..i]
    {
      buf[i] := input[i];
      i := i + 1;
    }
    var j := inLen;
    i := 0;
    while i < ans
      invariant 0 <= i <= ans && j == inLen + i
      invariant buf[..inLen] == input
      invariant forall k :: inLen <= k < j ==> buf[k] == Blank
    {
      buf[j] := Blank;
      j := j + 1;
      i := i + 1;
    }
    buf[ans + inLen] := 0;
    assert buf[..inLen + ans] == Padded(input);
  }

  /** Blanks appended to a string vanish again under the trim. */
  lemma {:induction false} TrimRightSpaces(s: Text, n: nat)
    ensures TrimRight(s + Spaces(n)) == TrimRight(s)
  {
    if n > 0 {
      var t := s + Spaces(n);
      assert t[..|t| - 1] == s + Spaces(n - 1);
      TrimRightSpaces(s, n - 1);
    } else {
      assert s + Spaces(0) == s;
    }
  }

  /** What the decrypting side's trim makes of the padding: the padding
      goes, and so does any white space the input itself ended with. */
  lemma PaddingTrimmed(input: Text)
    ensures TrimRight(Padded(input)) == TrimRight(input)
    ensures (|input| == 0 || !IsSpace(input[|input| - 1])) ==> TrimRight(Padded(input)) == input
  {
    TrimRightSpaces(input, |input| % 8);
  }
}
