/** Percent-encoding of URL segments (Pubnub.encode and its helpers).
    A Java String is a sequence of UTF-16 code units; every character that
    is not in the safe set is written as the UTF-8 bytes (section 3 of
    RFC 3629) of its code point, each byte as '%' and two lowercase hex
    digits (section 2.1 of RFC 3986). Space is safe but is written "%20". */
module UrlEncoding {
  import opened Wrappers
  import opened Texts

  const Percent: CodeUnit := 0x25
  const Slash: CodeUnit := 0x2F
  const Space: CodeUnit := 0x20
  /** The code point Java's UTF-8 encoder writes for a lone surrogate. */
  const Replacement: int := 0x3F

  /** `n` consecutive characters from `first` on. */
  function Run(first: int, n: nat): (r: string)
    requires 0 <= first && first + n <= 0xD800
    ensures |r| == n && forall i :: 0 <= i < n ==> r[i] as int == first + i
  {
    if n == 0 then [] else Run(first, n - 1) + [(first + n - 1) as char]
  }

  /** "0123456789", "abcdefghijklmnopqrstuvwxyz" and
      "ABCDEFGHIJKLMNOPQRSTUVWXYZ". */
  const Digits: string := Run('0' as int, 10)
  const LowerCase: string := Run('a' as int, 26)
  const UpperCase: string := Run('A' as int, 26)
  /** The characters `dontNeedEncoding` accepts, in the order it scans them
      (the 67-character literal of the source, written in four pieces). */
  const SafeText: string := Digits + LowerCase + UpperCase + " -_.*"

  predicate InSafeText(c: int)
  {
    exists i :: 0 <= i < |SafeText| && SafeText[i] as int == c
  }

  /** The safe set as ranges: ASCII letters, digits, space and "-_.*". */
  predicate Unreserved(c: int)
  {
    || '0' as int <= c <= '9' as int
    || 'a' as int <= c <= 'z' as int
    || 'A' as int <= c <= 'Z' as int
    || c == ' ' as int || c == '-' as int || c == '_' as int || c == '.' as int || c == '*' as int
  }

  lemma SafeCharIsUnreserved(i: int)
    requires 0 <= i < |SafeText|
    ensures Unreserved(SafeText[i] as int)
  {
    if i < 10 { assert SafeText[i] == Digits[i]; }
    else if i < 36 { assert SafeText[i] == LowerCase[i - 10]; }
    else if i < 62 { assert SafeText[i] == UpperCase[i - 36]; }
  }

  /** Where `dontNeedEncoding` finds a character of the safe set. */
  function SafeIndex(c: int): int
  {
    if '0' as int <= c <= '9' as int then c - '0' as int
    else if 'a' as int <= c <= 'z' as int then 10 + c - 'a' as int
    else if 'A' as int <= c <= 'Z' as int then 36 + c - 'A' as int
    else if c == ' ' as int then 62
    else if c == '-' as int then 63
    else if c == '_' as int then 64
    else if c == '.' as int then 65
    else 66
  }

  lemma LetterFound(c: int)
    requires 'a' as int <= c <= 'z' as int || 'A' as int <= c <= 'Z' as int
    ensures SafeText[SafeIndex(c)] as int == c
  {
    if 'a' as int <= c <= 'z' as int {
      assert SafeText[SafeIndex(c)] == LowerCase[c - 'a' as int];
    } else {
      assert SafeText[SafeIndex(c)] == UpperCase[c - 'A' as int];
    }
  }

  lemma UnreservedIsFound(c: int)
    requires Unreserved(c)
    ensures 0 <= SafeIndex(c) < |SafeText| && SafeText[SafeIndex(c)] as int == c
  {
    if '0' as int <= c <= '9' as int {
      assert SafeText[SafeIndex(c)] == Digits[c - '0' as int];
    } else if 'a' as int <= c <= 'z' as int || 'A' as int <= c <= 'Z' as int {
      LetterFound(c);
    }
  }

  /** The literal scanned by `dontNeedEncoding` is exactly the safe set. */
  lemma SafeTextIsUnreserved(c: int)
    ensures |SafeText| == 67
    ensures InSafeText(c) <==> Unreserved(c)
  {
    if Unreserved(c) {
      UnreservedIsFound(c);
    }
    if InSafeText(c) {
      var i :| 0 <= i < |SafeText| && SafeText[i] as int == c;
      SafeCharIsUnreserved(i);
    }
  }

  /** The linear scan of dontNeedEncoding over a string of characters:
      whether `ch` occurs in it. */
  method Find(t: string, ch: int) returns (found: bool)
    ensures found <==> exists i :: 0 <= i < |t| && t[i] as int == ch
  {
    var i := 0;
    while i < |t| && t[i] as int != ch
      invariant 0 <= i <= |t|
      invariant forall j :: 0 <= j < i ==> t[j] as int != ch
    {
      i := i + 1;
    }
    found := i < |t|;
  }

  /** dontNeedEncoding: the scan of the safe text. */
  method DontNeedEncoding(ch: int) returns (en: bool)
    ensures en <==> Unreserved(ch)
  {
    en := Find(SafeText, ch);
    SafeTextIsUnreserved(ch);
  }

  /** toHex: an upper-case hex digit, truncated to 16 bits by the (char)
      cast. For a nibble it is the digit HexValue reads back, upper case
      from 10 on. */
  function ToHex(ch: int): (r: CodeUnit)
    ensures 0 <= ch < 16 ==> HexValue(r) == ch
    ensures 10 <= ch < 16 ==> 'A' as int <= r <= 'F' as int
  {
    (if ch < 10 then '0' as int + ch else 'A' as int + ch - 10) % 0x1_0000
  }

  /** The value of a base-36 digit character of either case, or -1. */
  function DigitValue(u: int): (v: int)
    ensures -1 <= v < 36
  {
    if '0' as int <= u <= '9' as int then u - '0' as int
    else if 'a' as int <= u <= 'z' as int then u - 'a' as int + 10
    else if 'A' as int <= u <= 'Z' as int then u - 'A' as int + 10
    else -1
  }

  /** CCharacter.forDigit: the lower-case digit for `digit` in `radix`, or
      the character '\0' when the digit or the radix is out of range. */
  function ForDigit(digit: int, radix: int): (r: CodeUnit)
    ensures r == 0 <==> (digit >= radix || digit < 0 || radix < 2 || radix > 36)
    ensures r != 0 ==> DigitValue(r) == digit && !('A' as int <= r <= 'Z' as int)
  {
    if digit >= radix || digit < 0 then 0
    else if radix < 2 || radix > 36 then 0
    else if digit < 10 then '0' as int + digit
    else 'a' as int - 10 + digit
  }

  /** A byte as the signed Java `byte` the encoder hands back. */
  function SignedByte(b: Byte): int
  {
    if b >= 0x80 then b - 0x100 else b
  }

  /** `(ba[j] >> 4) & 0xF`: arithmetic shift then mask; the sign extension
      of a negative byte is masked away. */
  function HighNibble(b: Byte): (n: int)
    ensures n == b / 16
  {
    (SignedByte(b) / 16) % 16
  }

  /** `ba[j] & 0xF`. */
  function LowNibble(b: Byte): (n: int)
    ensures n == b % 16
  {
    SignedByte(b) % 16
  }

  predicate IsHighSurrogate(u: int) { 0xD800 <= u <= 0xDBFF }
  predicate IsLowSurrogate(u: int) { 0xDC00 <= u <= 0xDFFF }

  /** `cp` in base 64 with n low digits: the part above them, then the n
      six-bit groups, most significant first. */
  function Sextets(cp: nat, n: nat): (g: seq<nat>)
    ensures |g| == n + 1
    ensures forall k :: 1 <= k < |g| ==> g[k] < 0x40
    decreases n
  {
    if n == 0 then [cp] else Sextets(cp / 0x40, n - 1) + [cp % 0x40]
  }

  /** The groups of one, two and three six-bit digits, spelled out. */
  lemma SextetsOne(cp: nat)
    ensures Sextets(cp, 1) == [cp / 0x40, cp % 0x40]
  {
    assert Sextets(cp / 0x40, 0) == [cp / 0x40];
  }

  lemma SextetsTwo(cp: nat)
    ensures Sextets(cp, 2) == [cp / 0x1000, (cp / 0x40) % 0x40, cp % 0x40]
  {
    var a := cp / 0x40;
    SextetsOne(a);
    assert a / 0x40 == cp / 0x1000;
  }

  lemma SextetsThree(cp: nat)
    ensures Sextets(cp, 3) == [cp / 0x4_0000, (cp / 0x1000) % 0x40, (cp / 0x40) % 0x40, cp % 0x40]
  {
    var a := cp / 0x40;
    SextetsTwo(a);
    assert a / 0x40 == cp / 0x1000;
    assert a / 0x1000 == cp / 0x4_0000;
  }

  lemma SextetsValues(cp: nat)
    ensures Sextets(cp, 1) == [cp / 0x40, cp % 0x40]
    ensures Sextets(cp, 2) == [cp / 0x1000, (cp / 0x40) % 0x40, cp % 0x40]
    ensures Sextets(cp, 3) == [cp / 0x4_0000, (cp / 0x1000) % 0x40, (cp / 0x40) % 0x40, cp % 0x40]
  {
    SextetsOne(cp);
    SextetsTwo(cp);
    SextetsThree(cp);
  }

  /** UTF-8 bytes of a code point, as in the table of section 3 of RFC 3629:
      a lead byte carrying the high bits, then one `10xxxxxx` byte per
      six-bit group. */
  function Utf8(cp: int): (bs: seq<Byte>)
    requires 0 <= cp < 0x11_0000
    ensures 1 <= |bs| <= 4
    ensures |bs| == (if cp < 0x80 then 1 else if cp < 0x800 then 2 else if cp < 0x1_0000 then 3 else 4)
  {
    SextetsValues(cp);
    if cp < 0x80 then [cp]
    else if cp < 0x800 then
      var g := Sextets(cp, 1);
      [0xC0 + g[0], 0x80 + g[1]]
    else if cp < 0x1_0000 then
      var g := Sextets(cp, 2);
      [0xE0 + g[0], 0x80 + g[1], 0x80 + g[2]]
    else
      var g := Sextets(cp, 3);
      [0xF0 + g[0], 0x80 + g[1], 0x80 + g[2], 0x80 + g[3]]
  }

  /** Reads back the code point from the bytes Utf8 writes. */
  function Utf8Value(bs: seq<Byte>): int
  {
    var b := seq(|bs|, k requires 0 <= k < |bs| => bs[k] as int);
    if |b| == 1 then b[0]
    else if |b| == 2 then (b[0] - 0xC0) * 0x40 + (b[1] - 0x80)
    else if |b| == 3 then (b[0] - 0xE0) * 0x1000 + (b[1] - 0x80) * 0x40 + (b[2] - 0x80)
    else if |b| == 4 then (b[0] - 0xF0) * 0x4_0000 + (b[1] - 0x80) * 0x1000 + (b[2] - 0x80) * 0x40 + (b[3] - 0x80)
    else -1
  }

  /** Six-bit groups of a code point reassemble to it. */
  lemma SixBitGroups(cp: int)
    requires 0 <= cp
    ensures cp == (cp / 0x40) * 0x40 + cp % 0x40
    ensures cp == (cp / 0x1000) * 0x1000 + ((cp / 0x40) % 0x40) * 0x40 + cp % 0x40
    ensures cp == (cp / 0x4_0000) * 0x4_0000 + ((cp / 0x1000) % 0x40) * 0x1000 + ((cp / 0x40) % 0x40) * 0x40 + cp % 0x40
  {
    var a, b, c := cp / 0x40, cp / 0x1000, cp / 0x4_0000;
    assert b == a / 0x40 && c == b / 0x40;
    assert cp == a * 0x40 + cp % 0x40;
    assert a == b * 0x40 + a % 0x40;
    assert b == c * 0x40 + b % 0x40;
  }

  lemma Utf8RoundTrip(cp: int)
    requires 0 <= cp < 0x11_0000
    ensures Utf8Value(Utf8(cp)) == cp
  {
    SixBitGroups(cp);
    SextetsValues(cp);
    var bs := Utf8(cp);
    var b := seq(|bs|, k requires 0 <= k < |bs| => bs[k] as int);
    assert forall k :: 0 <= k < |bs| ==> b[k] == bs[k];
  }

  /** How many code units the encoder consumes at the head of `s`: two for
      a high surrogate followed by a low one, otherwise one. */
  function TokenLength(s: seq<CodeUnit>): (n: nat)
    requires |s| > 0
    ensures 1 <= n <= |s|
  {
    if IsHighSurrogate(s[0]) && |s| > 1 && IsLowSurrogate(s[1]) then 2 else 1
  }

  /** The code point the encoder's writer sees for the token at the head. */
  function CodePoint(s: seq<CodeUnit>): (cp: int)
    requires |s| > 0
    ensures 0 <= cp < 0x11_0000
  {
    if TokenLength(s) == 2 then 0x1_0000 + (s[0] - 0xD800) * 0x400 + (s[1] - 0xDC00)
    else if IsHighSurrogate(s[0]) || IsLowSurrogate(s[0]) then Replacement
    else s[0]
  }

  /** Each byte as '%' followed by two digits from forDigit. */
  function PercentBytes(bs: seq<Byte>): (r: seq<CodeUnit>)
    ensures |r| == 3 * |bs|
  {
    if bs == [] then []
    else [Percent, ForDigit(HighNibble(bs[0]), 16), ForDigit(LowNibble(bs[0]), 16)] + PercentBytes(bs[1..])
  }

  /** What one turn of the encoder's loop appends: a safe character other
      than space is copied, anything else is escaped, and the output is
      never shorter than the units the token consumes. */
  function EncodeToken(s: seq<CodeUnit>): (r: seq<CodeUnit>)
    requires |s| > 0
    ensures |r| >= TokenLength(s)
    ensures Unreserved(s[0]) && s[0] != Space ==> r == [s[0]]
    ensures !(Unreserved(s[0]) && s[0] != Space) ==> |r| >= 3 && r[0] == Percent
  {
    if Unreserved(s[0]) then
      if s[0] == Space then [Percent, ToHex(s[0] / 16), ToHex(s[0] % 16)] else [s[0]]
    else PercentBytes(Utf8(CodePoint(s)))
  }

  /** What encode returns for `s`: the tokens of `s` encoded in order. */
  function EncodeSpec(s: seq<CodeUnit>): (r: seq<CodeUnit>)
    ensures |r| >= |s|
    decreases |s|, 1
  {
    if s == [] then [] else EncodeNext(s)
  }

  /** The encoding of a non-empty input: its first token, then the rest. */
  function EncodeNext(s: seq<CodeUnit>): (r: seq<CodeUnit>)
    requires |s| > 0
    ensures |r| >= |s|
    decreases |s|, 0
  {
    EncodeToken(s) + EncodeSpec(s[TokenLength(s)..])
  }

  lemma EncodeHead(s: seq<CodeUnit>)
    requires |s| > 0
    ensures EncodeSpec(s) == EncodeToken(s) + EncodeSpec(s[TokenLength(s)..])
  {
    assert EncodeSpec(s) == EncodeNext(s);
  }

  lemma EncodeUnfold(s: seq<CodeUnit>, i: nat)
    requires i < |s|
    ensures EncodeSpec(s[i..]) == EncodeToken(s[i..]) + EncodeSpec(s[i + TokenLength(s[i..])..])
  {
    EncodeHead(s[i..]);
    assert s[i..][TokenLength(s[i..])..] == s[i + TokenLength(s[i..])..];
  }

  /** The inner loop of encode: each byte the writer produced as '%' and
      two forDigit digits of its nibbles. */
  method AppendPercentBytes(out: seq<CodeUnit>, ba: seq<Byte>) returns (r: seq<CodeUnit>)
    ensures r == out + PercentBytes(ba)
  {
    r := out;
    var j := 0;
    while j < |ba|
      invariant 0 <= j <= |ba|
      invariant r + PercentBytes(ba[j..]) == out + PercentBytes(ba)
    {
      assert ba[j..][1..] == ba[j + 1..];
      r := r + [Percent, ForDigit(HighNibble(ba[j]), 16), ForDigit(LowNibble(ba[j]), 16)];
      j := j + 1;
    }
  }

  /** One turn of encode's loop at index i: what it appends, how far the
      index moves, and whether the character had to change. */
  method EncodeAt(s: seq<CodeUnit>, i: nat) returns (piece: seq<CodeUnit>, width: nat, changed: bool)
    requires i < |s|
    ensures piece == EncodeToken(s[i..]) && width == TokenLength(s[i..])
    ensures !changed ==> piece == [s[i]] && width == 1
  {
    var c := s[i];
    var safe := DontNeedEncoding(c);
    if safe {
      if c == Space {
        piece, width, changed := [Percent, ToHex(c / 16), ToHex(c % 16)], 1, true;
      } else {
        piece, width, changed := [c], 1, false;
      }
    } else {
      var cp: int := c;
      width := 1;
      if IsHighSurrogate(c) && i + 1 < |s| && IsLowSurrogate(s[i + 1]) {
        cp := 0x1_0000 + (c as int - 0xD800) * 0x400 + (s[i + 1] as int - 0xDC00);
        width := 2;
      } else if IsHighSurrogate(c) || IsLowSurrogate(c) {
        cp := Replacement;
      }
      assert s[i..][0] == c && (i + 1 < |s| ==> s[i..][1] == s[i + 1]);
      assert cp == CodePoint(s[i..]) && width == TokenLength(s[i..]);
      piece := AppendPercentBytes([], Utf8(cp));
      assert piece == PercentBytes(Utf8(cp));
      changed := true;
    }
  }

  lemma Associative(a: seq<CodeUnit>, b: seq<CodeUnit>, c: seq<CodeUnit>)
    ensures a + (b + c) == (a + b) + c
  {
  }

  lemma Regroup(out: seq<CodeUnit>, whole: seq<CodeUnit>, rest: seq<CodeUnit>, piece: seq<CodeUnit>, tail: seq<CodeUnit>)
    requires out + rest == whole && rest == piece + tail
    ensures (out + piece) + tail == whole
  {
    Associative(out, piece, tail);
  }

  /** The encoding of the rest at index i: the token there, then the
      encoding of what follows it. */
  lemma EncodeUnfoldAt(s: seq<CodeUnit>, i: nat, piece: seq<CodeUnit>, width: nat)
    requires i < |s|
    requires piece == EncodeToken(s[i..]) && width == TokenLength(s[i..])
    ensures i + width <= |s|
    ensures EncodeSpec(s[i..]) == piece + EncodeSpec(s[i + width..])
  {
    EncodeUnfold(s, i);
  }

  /** An unchanged character extends the copied prefix by itself. */
  lemma ExtendPrefix(s: seq<CodeUnit>, i: nat, out: seq<CodeUnit>, piece: seq<CodeUnit>, width: nat)
    requires i < |s| && out == s[..i] && piece == [s[i]] && width == 1
    ensures i + width <= |s| && out + piece == s[..i + width]
  {
    assert s[..i + 1] == s[..i] + [s[i]];
  }

  /** One turn of encode's loop: the buffer grows by the token at i, the
      index moves past it, and `needToChange` records whether it differed. */
  method EncodeStep(s: seq<CodeUnit>, i: nat, out: seq<CodeUnit>, needToChange: bool)
    returns (out': seq<CodeUnit>, i': nat, needToChange': bool)
    requires i < |s|
    requires out + EncodeSpec(s[i..]) == EncodeSpec(s)
    requires !needToChange ==> out == s[..i]
    ensures i < i' <= |s|
    ensures out' + EncodeSpec(s[i'..]) == EncodeSpec(s)
    ensures !needToChange' ==> out' == s[..i']
  {
    var piece, width, changed := EncodeAt(s, i);
    EncodeUnfoldAt(s, i, piece, width);
    Regroup(out, EncodeSpec(s), EncodeSpec(s[i..]), piece, EncodeSpec(s[i + width..]));
    if !needToChange && !changed {
      ExtendPrefix(s, i, out, piece, width);
    }
    out' := out + piece;
    needToChange' := needToChange || changed;
    i' := i + width;
  }

  /** encode(s, "UTF-8"): the StringBuffer loop, with the index skip over a
      surrogate pair and the `needToChange` shortcut that hands back `s`. */
  method Encode(s: seq<CodeUnit>) returns (r: seq<CodeUnit>)
    ensures r == EncodeSpec(s)
  {
    var needToChange := false;
    var out: seq<CodeUnit> := [];
    var i: nat := 0;
    assert s[0..] == s;
    while i < |s|
      invariant 0 <= i <= |s|
      invariant out + EncodeSpec(s[i..]) == EncodeSpec(s)
      invariant !needToChange ==> out == s[..i]
      decreases |s| - i
    {
      out, i, needToChange := EncodeStep(s, i, out, needToChange);
    }
    assert s[i..] == [];
    if !needToChange {
      assert s[..|s|] == s;
    }
    r := if needToChange then out else s;
  }

  /** A unit that may appear in an encoded segment. */
  predicate UrlSafe(u: int)
  {
    (Unreserved(u) && u != Space) || u == Percent
  }

  /** A digit forDigit produces in radix 16. */
  predicate LowerHexDigit(u: int)
  {
    '0' as int <= u <= '9' as int || 'a' as int <= u <= 'f' as int
  }

  /** Each byte becomes '%' followed by two lower-case hex digits. */
  lemma {:induction false} PercentBytesUrlSafe(bs: seq<Byte>)
    ensures forall k :: 0 <= k < |PercentBytes(bs)| ==> UrlSafe(PercentBytes(bs)[k])
    ensures forall k :: 0 <= k < |PercentBytes(bs)| ==>
      (k % 3 == 0 ==> PercentBytes(bs)[k] == Percent) &&
      (k % 3 != 0 ==> LowerHexDigit(PercentBytes(bs)[k]))
  {
    if bs != [] {
      PercentBytesUrlSafe(bs[1..]);
      var head := [Percent, ForDigit(HighNibble(bs[0]), 16), ForDigit(LowNibble(bs[0]), 16)];
      var tail := PercentBytes(bs[1..]);
      assert LowerHexDigit(head[1]) && LowerHexDigit(head[2]);
      forall k | 3 <= k < |head + tail|
        ensures (head + tail)[k] == tail[k - 3] && (k - 3) % 3 == k % 3
      {
      }
    }
  }

  /** What one turn of the loop appends is URL-safe. */
  lemma TokenUrlSafe(s: seq<CodeUnit>)
    requires |s| > 0
    ensures forall k :: 0 <= k < |EncodeToken(s)| ==> UrlSafe(EncodeToken(s)[k])
  {
    if !Unreserved(s[0]) {
      PercentBytesUrlSafe(Utf8(CodePoint(s)));
    }
  }

  lemma ConcatUrlSafe(a: seq<CodeUnit>, b: seq<CodeUnit>)
    requires forall k :: 0 <= k < |a| ==> UrlSafe(a[k])
    requires forall k :: 0 <= k < |b| ==> UrlSafe(b[k])
    ensures forall k :: 0 <= k < |a + b| ==> UrlSafe((a + b)[k])
  {
  }

  /** A URL-safe text holds no '/' and no space. */
  lemma UrlSafeExcludes(t: seq<CodeUnit>)
    requires forall k :: 0 <= k < |t| ==> UrlSafe(t[k])
    ensures Slash !in t && Space !in t
  {
  }

  /** Every unit of an encoded segment is a safe non-space character, a
      '%' or a hex digit; in particular no '/' and no space survive. */
  lemma {:induction false} EncodedIsUrlSafe(s: seq<CodeUnit>)
    ensures forall k :: 0 <= k < |EncodeSpec(s)| ==> UrlSafe(EncodeSpec(s)[k])
    ensures Slash !in EncodeSpec(s) && Space !in EncodeSpec(s)
  {
    var t := EncodeSpec(s);
    if s != [] {
      var head := EncodeToken(s);
      var tail := EncodeSpec(s[TokenLength(s)..]);
      EncodeHead(s);
      EncodedIsUrlSafe(s[TokenLength(s)..]);
      TokenUrlSafe(s);
      ConcatUrlSafe(head, tail);
    }
    UrlSafeExcludes(t);
  }

  /** A segment made only of safe non-space characters comes back unchanged. */
  lemma {:induction false} EncodePlainIsIdentity(s: seq<CodeUnit>)
    requires forall k :: 0 <= k < |s| ==> Unreserved(s[k]) && s[k] != Space
    ensures EncodeSpec(s) == s
  {
    if s != [] {
      EncodeHead(s);
      EncodePlainIsIdentity(s[1..]);
    }
  }

  /** The value of a hex digit of either case, or -1. */
  function HexValue(u: int): (v: int)
    ensures -1 <= v < 16
  {
    var d := DigitValue(u);
    if d < 16 then d else -1
  }

  /** Percent-decoding of a segment (section 2.1 of RFC 3986): "%hh" is the
      byte hh, an ASCII character is its own byte; None for malformed text. */
  function PercentDecode(t: seq<CodeUnit>): Option<seq<Byte>>
  {
    if t == [] then Some([])
    else if t[0] == Percent then
      if |t| >= 3 && HexValue(t[1]) >= 0 && HexValue(t[2]) >= 0 then
        Prepend([16 * HexValue(t[1]) + HexValue(t[2])], PercentDecode(t[3..]))
      else None
    else if t[0] < 0x80 then Prepend([t[0]], PercentDecode(t[1..]))
    else None
  }

  function Prepend(bs: seq<Byte>, rest: Option<seq<Byte>>): Option<seq<Byte>>
  {
    match rest
    case None => None
    case Some(r) => Some(bs + r)
  }

  /** The UTF-8 bytes of the code points the encoder sees, token by token. */
  function TokenBytes(s: seq<CodeUnit>): seq<Byte>
    decreases |s|
  {
    if s == [] then [] else Utf8(CodePoint(s)) + TokenBytes(s[TokenLength(s)..])
  }

  /** The two digits written for a byte read back as the byte. */
  lemma HexDigitsOf(b: Byte)
    ensures HexValue(ForDigit(HighNibble(b), 16)) >= 0 && HexValue(ForDigit(LowNibble(b), 16)) >= 0
    ensures 16 * HexValue(ForDigit(HighNibble(b), 16)) + HexValue(ForDigit(LowNibble(b), 16)) == b
  {
  }

  /** One "%hh" triple decodes to its byte. */
  lemma DecodeTriple(b: Byte, tail: seq<CodeUnit>)
    ensures PercentDecode([Percent, ForDigit(HighNibble(b), 16), ForDigit(LowNibble(b), 16)] + tail)
         == Prepend([b], PercentDecode(tail))
  {
    var t := [Percent, ForDigit(HighNibble(b), 16), ForDigit(LowNibble(b), 16)] + tail;
    assert t[0] == Percent && t[1] == ForDigit(HighNibble(b), 16) && t[2] == ForDigit(LowNibble(b), 16);
    assert t[3..] == tail;
    HexDigitsOf(b);
  }

  lemma PrependNothing(o: Option<seq<Byte>>)
    ensures Prepend([], o) == o
  {
    if o.Some? {
      assert [] + o.value == o.value;
    }
  }

  lemma PrependTwice(a: seq<Byte>, c: seq<Byte>, o: Option<seq<Byte>>)
    ensures Prepend(a, Prepend(c, o)) == Prepend(a + c, o)
  {
    if o.Some? {
      assert a + (c + o.value) == (a + c) + o.value;
    }
  }

  /** Decoding the encoding of a non-empty byte string yields its first
      byte ahead of the decoding of the rest. */
  lemma DecodeHead(bs: seq<Byte>, rest: seq<CodeUnit>)
    requires bs != []
    ensures PercentDecode(PercentBytes(bs) + rest) == Prepend([bs[0]], PercentDecode(PercentBytes(bs[1..]) + rest))
  {
    var b := bs[0];
    var triple := [Percent, ForDigit(HighNibble(b), 16), ForDigit(LowNibble(b), 16)];
    var tail := PercentBytes(bs[1..]) + rest;
    assert PercentBytes(bs) + rest == triple + tail;
    DecodeTriple(b, tail);
  }

  lemma {:induction false} DecodePercentBytes(bs: seq<Byte>, rest: seq<CodeUnit>)
    ensures PercentDecode(PercentBytes(bs) + rest) == Prepend(bs, PercentDecode(rest))
  {
    if bs == [] {
      assert PercentBytes(bs) + rest == rest;
      PrependNothing(PercentDecode(rest));
    } else {
      DecodeHead(bs, rest);
      DecodePercentBytes(bs[1..], rest);
      PrependTwice([bs[0]], bs[1..], PercentDecode(rest));
      assert [bs[0]] + bs[1..] == bs;
    }
  }

  lemma DecodeToken(s: seq<CodeUnit>, rest: seq<CodeUnit>)
    requires |s| > 0
    ensures PercentDecode(EncodeToken(s) + rest) == Prepend(Utf8(CodePoint(s)), PercentDecode(rest))
  {
    if Unreserved(s[0]) {
      var t := EncodeToken(s) + rest;
      if s[0] == Space {
        assert t[3..] == rest;
      } else {
        assert t[1..] == rest;
      }
    } else {
      DecodePercentBytes(Utf8(CodePoint(s)), rest);
    }
  }

  /** Decoding an encoded segment gives back the UTF-8 bytes of its text:
      percent-decoding is the inverse of encode. */
  lemma {:induction false} DecodeEncode(s: seq<CodeUnit>)
    ensures PercentDecode(EncodeSpec(s)) == Some(TokenBytes(s))
    decreases |s|
  {
    if s != [] {
      var rest := s[TokenLength(s)..];
      DecodeEncode(rest);
      EncodeHead(s);
      DecodeToken(s, EncodeSpec(rest));
    }
  }

  /** The UTF-16 code units Java holds for one character. */
  function Utf16(c: char): (us: seq<CodeUnit>)
    ensures 1 <= |us| <= 2
  {
    if c as int < 0x1_0000 then [c as int]
    else
      var v := c as int - 0x1_0000;
      [0xD800 + v / 0x400, 0xDC00 + v % 0x400]
  }

  /** A text as the Java String that holds it. */
  function Units(s: string): seq<CodeUnit>
  {
    if s == [] then [] else Utf16(s[0]) + Units(s[1..])
  }

  /** The UTF-8 encoding of a text, character by character. */
  function Utf8Text(s: string): seq<Byte>
  {
    if s == [] then [] else Utf8(s[0] as int) + Utf8Text(s[1..])
  }

  lemma Utf16Token(c: char, rest: seq<CodeUnit>)
    ensures TokenLength(Utf16(c) + rest) == |Utf16(c)|
    ensures CodePoint(Utf16(c) + rest) == c as int
  {
    var t := Utf16(c) + rest;
    if c as int >= 0x1_0000 {
      var v := c as int - 0x1_0000;
      assert t[0] == 0xD800 + v / 0x400 && t[1] == 0xDC00 + v % 0x400;
    }
  }

  /** The encoder sees exactly the characters of the text: a character
      outside the Basic Multilingual Plane is one surrogate pair, read back
      as one code point. */
  lemma {:induction false} TokenBytesOfText(s: string)
    ensures TokenBytes(Units(s)) == Utf8Text(s)
  {
    if s != [] {
      var us := Units(s);
      assert us == Utf16(s[0]) + Units(s[1..]);
      Utf16Token(s[0], Units(s[1..]));
      assert us[TokenLength(us)..] == Units(s[1..]);
      TokenBytesOfText(s[1..]);
    }
  }

  /** A segment of text encodes to the percent-encoding of its UTF-8 bytes. */
  lemma TextRoundTrip(s: string)
    ensures PercentDecode(EncodeSpec(Units(s))) == Some(Utf8Text(s))
  {
    DecodeEncode(Units(s));
    TokenBytesOfText(s);
  }
}
