/** The request builder of the J2ME client: the segment list of each
    operation, the string that a publish signs, and getURL, which joins the
    origin and the percent-encoded segments with '/'. */
module Requests {
  import opened Wrappers
  import opened Texts
  import opened JsonValues
  import opened UrlEncoding
  import opened Oracles

  /** The initial value of the ORIGIN field. */
  const Host: Text := Lit("pubsub.pubnub.com")

  /** init: the scheme is put in front of whatever ORIGIN holds. The
      result starts with "https://" exactly when SSL is on, and cutting the
      scheme off gives back the origin. */
  function WithScheme(origin: Text, ssl: bool): (r: Text)
    ensures |r| == |origin| + (if ssl then 8 else 7)
    ensures ssl <==> |r| >= 8 && r[..8] == Lit("https://")
    ensures !ssl ==> r[..7] == Lit("http://")
    ensures r[|r| - |origin|..] == origin
  {
    var scheme := if ssl then Lit("https://") else Lit("http://");
    assert !ssl && |origin| > 0 ==> (scheme + origin)[4] != Lit("https://")[4];
    scheme + origin
  }

  /** Reads an origin URL back: whether it is secure, and the host after
      the scheme. None when neither scheme is in front. */
  function StripScheme(url: Text): (r: Option<(bool, Text)>)
    ensures r.Some? && r.value.0 ==> url == Lit("https://") + r.value.1
    ensures r.Some? && !r.value.0 ==> url == Lit("http://") + r.value.1
  {
    if |url| >= 8 && url[..8] == Lit("https://") then Some((true, url[8..]))
    else if |url| >= 7 && url[..7] == Lit("http://") then Some((false, url[7..]))
    else None
  }

  /** init's choice of scheme can be read back from ORIGIN, and so can
      the host it was put in front of. */
  lemma SchemeRoundTrip(origin: Text, ssl: bool)
    ensures StripScheme(WithScheme(origin, ssl)) == Some((ssl, origin))
  {
    var r := WithScheme(origin, ssl);
    assert r[|r| - |origin|..] == origin;
  }

  // ---------------------------------------------------------------------
  // Messages and the publish signature

  /** The message argument of publish, by its run-time class. */
  datatype Message =
    | ObjectMessage(obj: Json)
    | StringMessage(text: Text)
    | ArrayMessage(arr: Json)
    | OtherMessage(shown: Text)
    | NullMessage

  const Quote: CodeUnit := 0x22

  /** The text publish sends for a message: objects and arrays rendered
      (encrypted first when a cipher key is set), a string wrapped in double
      quotes (its cipher text, unless encryption threw), any other object by
      its toString. None: a null message, whose toString throws. */
  function MessageText(env: Env, cipherOn: bool, m: Message): (r: Option<Text>)
    ensures r.None? <==> m.NullMessage?
    ensures m.StringMessage? ==> |r.value| >= 2 && r.value[0] == Quote && r.value[|r.value| - 1] == Quote
    ensures m.StringMessage? && !cipherOn ==> r.value[1..|r.value| - 1] == m.text
    ensures m.ObjectMessage? && !cipherOn ==> r.value == env.render(m.obj)
    ensures m.ArrayMessage? && !cipherOn ==> r.value == env.render(m.arr)
  {
    match m
    case ObjectMessage(o) => Some(env.render(if cipherOn then env.encryptObject(o) else o))
    case StringMessage(t) =>
      var body := if cipherOn && env.encryptString(t).Some? then env.encryptString(t).value else t;
      var q := [Quote] + body + [Quote];
      assert q[1..|q| - 1] == body;
      Some(q)
    case ArrayMessage(a) => Some(env.render(if cipherOn then env.encryptArray(a) else a))
    case OtherMessage(t) => Some(t)
    case NullMessage => None
  }

  /** pub/sub/secret/channel/message, each field followed by a '/'
      except the last. */
  function StringToSign(pub: Text, sub: Text, secret: Text, channel: Text, msg: Text): (r: Text)
    ensures |r| == |pub| + |sub| + |secret| + |channel| + |msg| + 4
    ensures r[..|pub|] == pub && r[|pub|] == Slash
    ensures r[|r| - |msg|..] == msg && r[|r| - |msg| - 1] == Slash
  {
    pub + [Slash] + sub + [Slash] + secret + [Slash] + channel + [Slash] + msg
  }

  /** "0" without a secret key, otherwise the HMAC of the string to sign. */
  function Signature(env: Env, pub: Text, sub: Text, secret: Text, channel: Text, msg: Text): (sig: Text)
    ensures |secret| == 0 ==> sig == Lit("0")
    ensures |secret| > 0 ==> sig == env.hmac(secret, StringToSign(pub, sub, secret, channel, msg))
  {
    if |secret| > 0 then env.hmac(secret, StringToSign(pub, sub, secret, channel, msg)) else Lit("0")
  }

  // ---------------------------------------------------------------------
  // Segment lists

  function PublishSegments(pub: Text, sub: Text, sig: Text, channel: Text, msg: Text): (segs: seq<Text>)
    ensures |segs| == 7 && segs[0] == Lit("publish") && segs[5] == Lit("0")
    ensures segs[1] == pub && segs[2] == sub && segs[3] == sig && segs[4] == channel && segs[6] == msg
  {
    [Lit("publish"), pub, sub, sig, channel, Lit("0"), msg]
  }

  function SubscribeSegments(sub: Text, channel: Text, timetoken: Text): (segs: seq<Text>)
    ensures |segs| == 5 && segs[0] == Lit("subscribe") && segs[3] == Lit("0")
    ensures segs[1] == sub && segs[2] == channel && segs[4] == timetoken
  {
    [Lit("subscribe"), sub, channel, Lit("0"), timetoken]
  }

  function HistorySegments(sub: Text, channel: Text, limit: int): (segs: seq<Text>)
    ensures |segs| == 5 && segs[0] == Lit("history") && segs[3] == Lit("0")
    ensures segs[1] == sub && segs[2] == channel && segs[4] == DecimalText(limit)
  {
    [Lit("history"), sub, channel, Lit("0"), DecimalText(limit)]
  }

  function TimeSegments(): (segs: seq<Text>)
    ensures |segs| == 2 && segs[0] == Lit("time") && segs[1] == Lit("0")
  {
    [Lit("time"), Lit("0")]
  }

  // ---------------------------------------------------------------------
  // Integer.toString for the history limit

  const Minus: CodeUnit := 0x2D

  function NatText(n: nat): (t: Text)
    ensures |t| > 0
    decreases n
  {
    if n < 10 then ['0' as int + n] else NatText(n / 10) + ['0' as int + n % 10]
  }

  function DecimalText(n: int): (t: Text)
    ensures |t| > 0
  {
    if n < 0 then [Minus] + NatText(-n) else NatText(n)
  }

  predicate IsDigit(u: int) { '0' as int <= u <= '9' as int }

  /** Integer.parseInt's reading of a string of decimal digits. */
  function DigitsValue(t: Text): nat
  {
    if t == [] then 0 else 10 * DigitsValue(t[..|t| - 1]) + (if IsDigit(t[|t| - 1]) then t[|t| - 1] - '0' as int else 0)
  }

  function ParseDecimal(t: Text): int
  {
    if |t| > 0 && t[0] == Minus then -(DigitsValue(t[1..]) as int) else DigitsValue(t)
  }

  lemma {:induction false} NatTextDigits(n: nat)
    ensures forall k :: 0 <= k < |NatText(n)| ==> IsDigit(NatText(n)[k])
    ensures DigitsValue(NatText(n)) == n
    decreases n
  {
    var t := NatText(n);
    if n >= 10 {
      NatTextDigits(n / 10);
      assert t[..|t| - 1] == NatText(n / 10);
    }
  }

  /** The limit segment reads back as the limit. */
  lemma DecimalRoundTrip(n: int)
    ensures ParseDecimal(DecimalText(n)) == n
  {
    if n < 0 {
      NatTextDigits(-n);
      assert DecimalText(n)[1..] == NatText(-n);
    } else {
      NatTextDigits(n);
    }
  }

  // ---------------------------------------------------------------------
  // getURL

  function Path(segs: seq<Text>): (p: Text)
    ensures segs == [] <==> p == []
    ensures segs != [] ==> p[0] == Slash
  {
    if segs == [] then [] else [Slash] + EncodeSpec(segs[0]) + Path(segs[1..])
  }

  /** The URL of a request: the origin, then "/" and the encoded segment
      for each segment in order. */
  function Url(origin: Text, segs: seq<Text>): (r: Text)
    ensures |r| >= |origin| && r[..|origin|] == origin
    ensures segs == [] <==> r == origin
  {
    origin + Path(segs)
  }

  lemma PathUnfold(segs: seq<Text>, i: nat)
    requires i < |segs|
    ensures Path(segs[i..]) == [Slash] + EncodeSpec(segs[i]) + Path(segs[i + 1..])
  {
    assert segs[i..][1..] == segs[i + 1..];
  }

  method GetUrl(origin: Text, segs: seq<Text>) returns (url: Text)
    ensures url == Url(origin, segs)
  {
    url := origin;
    var i := 0;
    while i < |segs|
      invariant 0 <= i <= |segs|
      invariant url + Path(segs[i..]) == Url(origin, segs)
    {
      var e := Encode(segs[i]);
      var piece := [Slash] + e;
      PathUnfold(segs, i);
      Regroup(url, Url(origin, segs), Path(segs[i..]), piece, Path(segs[i + 1..]));
      url := url + piece;
      i := i + 1;
    }
  }

  // ---------------------------------------------------------------------
  // Reading a URL path back

  /** Length of the run before the first '/'. */
  function NextSlash(p: Text): (k: nat)
    ensures k <= |p|
    ensures k < |p| ==> p[k] == Slash
    ensures forall j :: 0 <= j < k ==> p[j] != Slash
  {
    if p == [] || p[0] == Slash then 0 else 1 + NextSlash(p[1..])
  }

  /** A path "/a/b/c" as its segments ["a", "b", "c"]; None when the path
      does not start with '/'. */
  function SplitPath(p: Text): Option<seq<Text>>
    decreases |p|
  {
    if p == [] then Some([])
    else if p[0] != Slash then None
    else
      var k := NextSlash(p[1..]);
      match SplitPath(p[1 + k..])
      case None => None
      case Some(rest) => Some([p[1..1 + k]] + rest)
  }

  lemma {:induction false} NextSlashStopsAt(t: Text, rest: Text)
    requires Slash !in t
    requires rest == [] || rest[0] == Slash
    ensures NextSlash(t + rest) == |t|
  {
    if t != [] {
      assert (t + rest)[1..] == t[1..] + rest;
      NextSlashStopsAt(t[1..], rest);
    }
  }

  function EncodedSegments(segs: seq<Text>): (es: seq<Text>)
    ensures |es| == |segs|
    ensures forall i :: 0 <= i < |segs| ==> es[i] == EncodeSpec(segs[i])
  {
    seq(|segs|, i requires 0 <= i < |segs| => EncodeSpec(segs[i]))
  }

  lemma SplitCons(e: Text, rest: Text)
    requires Slash !in e
    requires rest == [] || rest[0] == Slash
    ensures SplitPath([Slash] + e + rest) ==
      (if SplitPath(rest).Some? then Some([e] + SplitPath(rest).value) else None)
  {
    var p := [Slash] + e + rest;
    assert p[1..] == e + rest;
    NextSlashStopsAt(e, rest);
    assert p[1 + |e|..] == rest;
    assert p[1..1 + |e|] == e;
  }

  /** Encoded segments hold no '/', so the path splits back into them. */
  lemma {:induction false} PathSplits(segs: seq<Text>)
    ensures SplitPath(Path(segs)) == Some(EncodedSegments(segs))
  {
    if segs != [] {
      var e := EncodeSpec(segs[0]);
      EncodedIsUrlSafe(segs[0]);
      PathSplits(segs[1..]);
      SplitCons(e, Path(segs[1..]));
      assert [e] + EncodedSegments(segs[1..]) == EncodedSegments(segs);
    }
  }

  lemma AfterPrefix(a: Text, b: Text)
    ensures (a + b)[|a|..] == b && (a + b)[..|a|] == a
  {
  }

  /** getURL loses nothing: the URL is the origin followed by a path that
      splits into one piece per segment, and each piece percent-decodes to
      the UTF-8 bytes of its segment. */
  lemma UrlRoundTrip(origin: Text, segs: seq<Text>)
    ensures Url(origin, segs)[..|origin|] == origin
    ensures SplitPath(Url(origin, segs)[|origin|..]).Some?
    ensures var pieces := SplitPath(Url(origin, segs)[|origin|..]).value;
      |pieces| == |segs| &&
      forall i :: 0 <= i < |segs| ==> PercentDecode(pieces[i]) == Some(TokenBytes(segs[i]))
  {
    AfterPrefix(origin, Path(segs));
    PathSplits(segs);
    forall i | 0 <= i < |segs|
      ensures PercentDecode(EncodedSegments(segs)[i]) == Some(TokenBytes(segs[i]))
    {
      DecodeEncode(segs[i]);
    }
  }

  /** A literal of lower-case letters and digits is left as it is by the
      encoder. */
  lemma PlainLiteral(s: string)
    requires forall k :: 0 <= k < |s| ==> 'a' <= s[k] <= 'z' || '0' <= s[k] <= '9'
    ensures EncodeSpec(Lit(s)) == Lit(s)
  {
    EncodePlainIsIdentity(Lit(s));
  }

  /** The segment "0" is left as it is by the encoder. */
  lemma ZeroSegment()
    ensures EncodeSpec(Lit("0")) == Lit("0")
  {
    PlainLiteral("0");
  }

  /** So are the names of the four requests. */
  lemma RequestNames()
    ensures EncodeSpec(Lit("publish")) == Lit("publish")
    ensures EncodeSpec(Lit("subscribe")) == Lit("subscribe")
    ensures EncodeSpec(Lit("history")) == Lit("history")
    ensures EncodeSpec(Lit("time")) == Lit("time")
  {
    PlainLiteral("publish");
    PlainLiteral("subscribe");
    PlainLiteral("history");
    PlainLiteral("time");
  }

  /** The decimal text of the history limit is left as it is by the
      encoder: digits and a leading '-'. */
  lemma DecimalPlain(n: int)
    ensures EncodeSpec(DecimalText(n)) == DecimalText(n)
  {
    var t := DecimalText(n);
    var m: nat := if n < 0 then -n else n;
    var digits := NatText(m);
    NatTextDigits(m);
    assert forall k :: 0 <= k < |digits| ==> Unreserved(digits[k]) && digits[k] != Space;
    if n < 0 {
      assert t == [Minus] + digits;
      forall k | 0 <= k < |t|
        ensures Unreserved(t[k]) && t[k] != Space
      {
        if k > 0 {
          assert t[k] == digits[k - 1];
        }
      }
    } else {
      assert t == digits;
    }
    EncodePlainIsIdentity(t);
  }

  /** The pieces getURL puts after the origin: one encoded segment each. */
  lemma UrlPieces(origin: Text, segs: seq<Text>)
    ensures SplitPath(Url(origin, segs)[|origin|..]) == Some(EncodedSegments(segs))
  {
    AfterPrefix(origin, Path(segs));
    PathSplits(segs);
  }

  /** A publish URL reads back as its seven segments: "publish", the
      publish and subscribe keys, the signature ("0" when no secret key is
      set), the channel, "0" and the message text. */
  lemma PublishUrl(env: Env, origin: Text, pub: Text, sub: Text, secret: Text, channel: Text, msg: Text)
    ensures var segs := PublishSegments(pub, sub, Signature(env, pub, sub, secret, channel, msg), channel, msg);
      SplitPath(Url(origin, segs)[|origin|..]).Some? &&
      var pieces := SplitPath(Url(origin, segs)[|origin|..]).value;
      |pieces| == 7 && pieces[0] == Lit("publish") && pieces[5] == Lit("0") &&
      PercentDecode(pieces[1]) == Some(TokenBytes(pub)) &&
      PercentDecode(pieces[2]) == Some(TokenBytes(sub)) &&
      (|secret| == 0 ==> pieces[3] == Lit("0")) &&
      (|secret| > 0 ==> PercentDecode(pieces[3]) == Some(TokenBytes(env.hmac(secret, StringToSign(pub, sub, secret, channel, msg))))) &&
      PercentDecode(pieces[4]) == Some(TokenBytes(channel)) &&
      PercentDecode(pieces[6]) == Some(TokenBytes(msg))
  {
    var sig := Signature(env, pub, sub, secret, channel, msg);
    var segs := PublishSegments(pub, sub, sig, channel, msg);
    UrlPieces(origin, segs);
    var pieces := EncodedSegments(segs);
    assert pieces[0] == EncodeSpec(Lit("publish")) && pieces[1] == EncodeSpec(pub) && pieces[2] == EncodeSpec(sub);
    assert pieces[3] == EncodeSpec(sig) && pieces[4] == EncodeSpec(channel);
    assert pieces[5] == EncodeSpec(Lit("0")) && pieces[6] == EncodeSpec(msg);
    RequestNames();
    ZeroSegment();
    DecodeEncode(pub);
    DecodeEncode(sub);
    DecodeEncode(sig);
    DecodeEncode(channel);
    DecodeEncode(msg);
  }

  /** A subscribe URL reads back as "subscribe", the subscribe key, the
      channel, "0" and the timetoken. */
  lemma SubscribeUrl(origin: Text, sub: Text, channel: Text, timetoken: Text)
    ensures var segs := SubscribeSegments(sub, channel, timetoken);
      SplitPath(Url(origin, segs)[|origin|..]).Some? &&
      var pieces := SplitPath(Url(origin, segs)[|origin|..]).value;
      |pieces| == 5 && pieces[0] == Lit("subscribe") && pieces[3] == Lit("0") &&
      PercentDecode(pieces[1]) == Some(TokenBytes(sub)) &&
      PercentDecode(pieces[2]) == Some(TokenBytes(channel)) &&
      PercentDecode(pieces[4]) == Some(TokenBytes(timetoken))
  {
    var segs := SubscribeSegments(sub, channel, timetoken);
    UrlPieces(origin, segs);
    var pieces := EncodedSegments(segs);
    assert pieces[0] == EncodeSpec(Lit("subscribe")) && pieces[1] == EncodeSpec(sub) && pieces[2] == EncodeSpec(channel);
    assert pieces[3] == EncodeSpec(Lit("0")) && pieces[4] == EncodeSpec(timetoken);
    RequestNames();
    ZeroSegment();
    DecodeEncode(sub);
    DecodeEncode(channel);
    DecodeEncode(timetoken);
  }

  /** A history URL reads back as "history", the subscribe key, the
      channel, "0" and the limit, whose text parses back to the limit. */
  lemma HistoryUrl(origin: Text, sub: Text, channel: Text, limit: int)
    ensures var segs := HistorySegments(sub, channel, limit);
      SplitPath(Url(origin, segs)[|origin|..]).Some? &&
      var pieces := SplitPath(Url(origin, segs)[|origin|..]).value;
      |pieces| == 5 && pieces[0] == Lit("history") && pieces[3] == Lit("0") &&
      PercentDecode(pieces[1]) == Some(TokenBytes(sub)) &&
      PercentDecode(pieces[2]) == Some(TokenBytes(channel)) &&
      ParseDecimal(pieces[4]) == limit
  {
    var segs := HistorySegments(sub, channel, limit);
    UrlPieces(origin, segs);
    var pieces := EncodedSegments(segs);
    assert pieces[0] == EncodeSpec(Lit("history")) && pieces[1] == EncodeSpec(sub) && pieces[2] == EncodeSpec(channel);
    assert pieces[3] == EncodeSpec(Lit("0")) && pieces[4] == EncodeSpec(DecimalText(limit));
    DecodeEncode(sub);
    DecodeEncode(channel);
    RequestNames();
    ZeroSegment();
    DecimalPlain(limit);
    DecimalRoundTrip(limit);
  }

  /** The URL of a two-segment request, written out. */
  lemma UrlOfTwo(origin: Text, x: Text, y: Text)
    ensures Url(origin, [x, y]) == origin + [Slash] + EncodeSpec(x) + [Slash] + EncodeSpec(y)
  {
    var segs := [x, y];
    assert segs[1..] == [y] && [y][1..] == [];
    var head := [Slash] + EncodeSpec(x);
    var tail := [Slash] + EncodeSpec(y);
    assert Path([y]) == tail + [] == tail;
    assert Path(segs) == head + tail;
    Associative(origin, head, tail);
    Associative(origin, [Slash], EncodeSpec(x));
    Associative(origin + [Slash] + EncodeSpec(x), [Slash], EncodeSpec(y));
  }

  /** The URL time() asks for is the origin followed by "/time/0". */
  lemma TimeUrl(origin: Text)
    ensures Url(origin, TimeSegments()) == origin + [Slash] + Lit("time") + [Slash] + Lit("0")
  {
    RequestNames();
    ZeroSegment();
    UrlOfTwo(origin, Lit("time"), Lit("0"));
  }

}
