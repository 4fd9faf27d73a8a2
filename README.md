# PubNub J2ME client engine and C crypto helpers, in Dafny

This project models two parts of the PubNub 3.1 client libraries and proves
properties of the model.

- **The J2ME client** (`j2me/src/pubnub/Pubnub.java`):
  - the channel registry, a vector of `ChannelStatus{channel, connected, first}`
    records, and the `current_timetoken` field;
  - `subscribe`, `_subscribe`, `_subscribe_base`, `unsubscribe`, `publish`,
    `history`, `init` and `_request`;
  - the response handler `OnComplet`, with its subscribe, publish and history
    branches;
  - the URL builder `getURL` and its percent-encoder `encode`, with
    `dontNeedEncoding`, `toHex` and `CCharacter.forDigit`.
- **The C crypto helpers** (`c-libevent/pubnub/PubnubCrypto.c`):
  - `substring`, `rtrim` and `getStringForDecrypt`;
  - the space padding of `encryptString`, and the trimming at the end of
    `decryptString`;
  - the JSON mappers `encryptJSONObject`, `decryptJSONObject`,
    `encryptJSONArray` and `decryptJSONArray`;
  - `decrypt` and `decryptHistry`.

## How the model is built

- A Java `String` is a `Text`, a sequence of UTF-16 code units (`Texts`).
  The C helpers use the same type for their `char*` strings: one unit per
  character, up to the terminating NUL. A null pointer is `None`.
- JSON values from org.json.me and json-c are one datatype (`JsonValues`).
  Objects keep their members in insertion order.
- Two layers model the J2ME client.
  - `Engine` gives each operation and each response as a step function
    over a value `State`. The state holds the registry (`None` while the
    vector is still null), the current timetoken, and a trace of what the
    client does that can be seen from outside: callbacks fired and
    requests queued.
  - `Client.Pubnub` is the class itself. Its fields are updated in place,
    and the `ChannelStatus` records are objects whose flags the handlers
    flip.
  - Every `Client.Pubnub` method is proved to move `Model()` exactly as its
    step function says. Each loop of the Java code is a loop in the method,
    with its invariants.
  - `EngineFacts` proves the intended behaviour of the step functions. Each
    item names where in Pubnub.java that intent is visible:
    - the registry never holds a name twice: `_subscribe` checks for the
      name before `addElement` (Pubnub.java:314-327);
    - connect fires at most once: the `first` flag of `ChannelStatus` is set
      when `connectCallback` fires (Pubnub.java:622-636);
    - messages are dispatched in order: the loop over index i
      (Pubnub.java:645);
    - a switched-off channel stops: the "Stop Connection?" comment
      (Pubnub.java:562);
    - the drop path resumes from the right timetoken: the "Ensure Connected"
      comment and the choice of `current_timetoken` (Pubnub.java:593-611).
- What neither side's code shows is passed in as function values
  (`Oracles.Env`, `CryptoJson.Cipher`):
  - org.json.me rendering and `optInt`;
  - HMAC-SHA256;
  - the Java `PubnubCrypto` class;
  - OpenSSL's MD5, AES-128-CBC and Base64;
  - json-c's serialiser.
- The answers of the successive `time()` calls are an input sequence
  (`probes`).

### Where the code does not do what it evidently intends (the model follows the code)

Each item names the comment, name or neighbouring code that shows the intent.

- A duplicate subscribe reports "Already Connected." and then polls anyway.
  The `return` after the report is commented out (Pubnub.java:337).
- A tracked channel that unsubscribe switched off is never reactivated by
  a new subscribe: `_subscribe` only looks at the name (Pubnub.java:316-338),
  although a subscribed channel is meant to be live, as a new record starts
  connected (Pubnub.java:39-43).
  `EngineFacts.UnsubscribedChannelStops` proves that such a channel stays
  stopped.
- An empty cursor resets the next poll's timetoken to "0" instead of
  keeping the previous one (Pubnub.java:522, 641-643). `current_timetoken`
  exists to resume from (Pubnub.java:607-611).
- For a message that is neither an object nor an array, the callback
  receives element 0 of the batch, not the message (Pubnub.java:669). The
  other two branches read message i (Pubnub.java:646, 658).
- A dropped response that carries a body resubscribes and then goes on to
  deliver the body and poll a second time (Pubnub.java:614, 639-686). The
  "Problem?" comment (Pubnub.java:581) marks that branch as the failure path,
  and delivery belongs to the other branch.
- A decryption exception ends the whole handler rather than only that
  message, and a body that does not parse is ignored rather than treated
  as a drop. Exceptions are caught at Pubnub.java:689-709. The history
  branch, by contrast, catches its decryption exception on the spot
  (Pubnub.java:537-543).
- The set of characters `dontNeedEncoding` accepts is the 67-character
  literal at Pubnub.java:894: digits, both cases of letters, and " -_.*".
  The space in it is then escaped as "%20" by the branch at
  Pubnub.java:787-792, so the literal alone does not give the safe set.

## Model

| member | source | states |
|---|---|---|
| UrlEncoding.SafeCharIsUnreserved | j2me/src/pubnub/Pubnub.java:894 | every character of the literal is an ASCII letter, a digit, or one of " -_.*" |
| UrlEncoding.LetterFound | j2me/src/pubnub/Pubnub.java:894 | each letter is found in the literal at the position the scan reaches it |
| UrlEncoding.UnreservedIsFound | j2me/src/pubnub/Pubnub.java:881-894 | every letter, digit and " -_.*" occurs in the literal |
| UrlEncoding.SafeTextIsUnreserved | j2me/src/pubnub/Pubnub.java:894 | the literal has 67 characters and holds exactly the unreserved set |
| UrlEncoding.DontNeedEncoding | j2me/src/pubnub/Pubnub.java:881-892 | the scan answers true exactly for a character of the unreserved set |
| UrlEncoding.Find | j2me/src/pubnub/Pubnub.java:881-892 | the loop finds the character exactly when some position of the table holds it |
| UrlEncoding.DigitValue | j2me/src/pubnub/Pubnub.java:867-878 | a base-36 digit character's value, or -1 |
| UrlEncoding.ForDigit | j2me/src/pubnub/Pubnub.java:867-878 | '\0' exactly when the digit or radix is out of range; otherwise a lower-case character whose digit value is the digit |
| UrlEncoding.HighNibble | j2me/src/pubnub/Pubnub.java:844 | `(ba[j] >> 4) & 0xF` on the signed byte is the byte's high nibble |
| UrlEncoding.ToHex | j2me/src/pubnub/Pubnub.java:716-718 | for a value below 16, a character whose hex value is that value; 10 to 15 give the upper-case letters A to F |
| UrlEncoding.LowNibble | j2me/src/pubnub/Pubnub.java:851 | `ba[j] & 0xF` is the byte's low nibble |
| UrlEncoding.Utf8 | j2me/src/pubnub/Pubnub.java:805-841 | the writer's UTF-8 bytes for a code point: 1 to 4 bytes by the code point's range |
| UrlEncoding.Utf8RoundTrip | j2me/src/pubnub/Pubnub.java:805-841 | the bytes decode back to the code point |
| UrlEncoding.TokenLength | j2me/src/pubnub/Pubnub.java:814-833 | the loop consumes two units for a high surrogate followed by a low one, otherwise one |
| UrlEncoding.CodePoint | j2me/src/pubnub/Pubnub.java:805-833 | the character the writer sees is a valid code point; a lone surrogate becomes '?' |
| UrlEncoding.EncodeUnfold | j2me/src/pubnub/Pubnub.java:783-860 | the encoding of a suffix is one token's output followed by the encoding of the rest |
| UrlEncoding.PercentBytes | j2me/src/pubnub/Pubnub.java:842-856 | three characters for each byte the writer produced |
| UrlEncoding.EncodeToken | j2me/src/pubnub/Pubnub.java:786-859 | a safe character other than space is copied as it is; anything else is escaped, starting with '%' and at least three characters long; never shorter than the units it consumes |
| UrlEncoding.EncodeNext | j2me/src/pubnub/Pubnub.java:783-860 | the encoding of a non-empty input is at least as long as the input |
| UrlEncoding.EncodeSpec | j2me/src/pubnub/Pubnub.java:783-860 | the reference encoding is never shorter than its input; EncodeUnfold, DecodeEncode and EncodedIsUrlSafe give its contents |
| UrlEncoding.AppendPercentBytes | j2me/src/pubnub/Pubnub.java:842-856 | the inner loop appends '%' and two forDigit digits for each byte |
| UrlEncoding.EncodeAt | j2me/src/pubnub/Pubnub.java:784-859 | one turn of the loop appends the token's encoding and advances past it; a safe non-space character is copied unchanged |
| UrlEncoding.EncodeUnfoldAt | j2me/src/pubnub/Pubnub.java:783-860 | the encoding of the rest of the input from position i is the piece the loop emits for the token at i followed by the encoding from the next token on, and that token lies inside the input |
| UrlEncoding.EncodeStep | j2me/src/pubnub/Pubnub.java:784-859 | one turn of the loop keeps the loop invariant: the buffer followed by the encoding of the rest is the encoding of the whole input, the index strictly advances, and while nothing needed changing the buffer is the input read so far |
| UrlEncoding.Encode | j2me/src/pubnub/Pubnub.java:772-863 | encode returns the specified encoding, including returning `s` itself when nothing needed changing |
| UrlEncoding.PercentBytesUrlSafe | j2me/src/pubnub/Pubnub.java:842-856 | every third character, starting with the first, is '%', and the two after it are lower-case hex digits (0-9, a-f) from forDigit; so the output is URL-safe |
| UrlEncoding.EncodedIsUrlSafe | j2me/src/pubnub/Pubnub.java:772-863 | an encoded segment holds only safe characters, '%' and hex digits, and never '/' or a space |
| UrlEncoding.EncodePlainIsIdentity | j2me/src/pubnub/Pubnub.java:786-862 | a segment of safe non-space characters encodes to itself |
| UrlEncoding.HexValue | j2me/src/pubnub/Pubnub.java:842-856 | a hex digit's value, or -1 |
| UrlEncoding.DecodePercentBytes | j2me/src/pubnub/Pubnub.java:842-856 | percent-decoding the encoded bytes gives the bytes back |
| UrlEncoding.DecodeToken | j2me/src/pubnub/Pubnub.java:784-859 | percent-decoding one token's output gives the UTF-8 bytes of its code point; space comes back as 0x20 |
| UrlEncoding.DecodeEncode | j2me/src/pubnub/Pubnub.java:772-863 | percent-decoding an encoded segment gives back the UTF-8 bytes of its characters |
| UrlEncoding.Utf16 | j2me/src/pubnub/Pubnub.java:784 | a character is one UTF-16 unit, or a surrogate pair above U+FFFF |
| UrlEncoding.Utf16Token | j2me/src/pubnub/Pubnub.java:814-833 | the encoder reads a surrogate pair as one token, the character it encodes |
| UrlEncoding.TokenBytesOfText | j2me/src/pubnub/Pubnub.java:783-860 | for a well-formed string, the encoder sees exactly its characters |
| UrlEncoding.TextRoundTrip | j2me/src/pubnub/Pubnub.java:772-863 | percent-decoding the encoding of a string gives its UTF-8 encoding (RFC 3629) |
| Requests.WithScheme | j2me/src/pubnub/Pubnub.java:121-126 | the origin gets a scheme in front: the result starts with "https://" exactly when SSL is on and with "http://" otherwise, is 8 or 7 units longer, and ends with the origin unchanged |
| Requests.StripScheme | j2me/src/pubnub/Pubnub.java:121-126 | reading a URL back: "https://" plus a host gives (true, host), "http://" plus a host gives (false, host) |
| Requests.SchemeRoundTrip | j2me/src/pubnub/Pubnub.java:121-126 | the scheme init chose and the origin it was put in front of can both be read back from ORIGIN |
| Requests.MessageText | j2me/src/pubnub/Pubnub.java:178-215 | null message exactly when there is no text; a string message is wrapped in double quotes around the (possibly encrypted) string; objects and arrays are rendered |
| Requests.StringToSign | j2me/src/pubnub/Pubnub.java:221-222 | the five fields joined by four '/': it starts with the publish key followed by '/', ends with '/' followed by the message, and is the fields' lengths plus 4 long |
| Requests.Signature | j2me/src/pubnub/Pubnub.java:218-227 | "0" when there is no secret key; otherwise the HMAC, under the secret key, of the string to sign |
| Requests.PublishSegments | j2me/src/pubnub/Pubnub.java:230-237 | exactly seven segments, in this order: "publish", the publish key, the subscribe key, the signature, the channel, "0", the message |
| Requests.SubscribeSegments | j2me/src/pubnub/Pubnub.java:262-267 | exactly five segments, in this order: "subscribe", the subscribe key, the channel, "0", the timetoken |
| Requests.HistorySegments | j2me/src/pubnub/Pubnub.java:436-441 | exactly five segments, in this order: "history", the subscribe key, the channel, "0", the limit in decimal |
| Requests.TimeSegments | j2me/src/pubnub/Pubnub.java:360-363 | exactly two segments: "time", then "0" |
| Requests.NatText | j2me/src/pubnub/Pubnub.java:441 | the decimal text of a natural number is not empty |
| Requests.DecimalText | j2me/src/pubnub/Pubnub.java:441 | `limit.toString()` is not empty |
| Requests.NatTextDigits | j2me/src/pubnub/Pubnub.java:441 | the text is all digits and reads back as the number |
| Requests.DecimalRoundTrip | j2me/src/pubnub/Pubnub.java:441 | the limit segment parses back to the limit, negative ones included |
| Requests.Path | j2me/src/pubnub/Pubnub.java:472-489 | empty exactly when there are no segments; otherwise it starts with '/' |
| Requests.PathUnfold | j2me/src/pubnub/Pubnub.java:472-489 | the path is "/" + encode(segment) for each segment, in order |
| Requests.Url | j2me/src/pubnub/Pubnub.java:466-491 | the URL starts with the origin, and is the origin alone exactly when there are no segments |
| Requests.GetUrl | j2me/src/pubnub/Pubnub.java:466-491 | getURL returns the origin followed by "/" + encode(segment) for each segment |
| Requests.NextSlash | j2me/src/pubnub/Pubnub.java:476 | the first '/' of a path, or its end |
| Requests.NextSlashStopsAt | j2me/src/pubnub/Pubnub.java:476 | a piece without '/' ends at the next separator |
| Requests.EncodedSegments | j2me/src/pubnub/Pubnub.java:476 | the encoded segments, one for each segment |
| Requests.SplitCons | j2me/src/pubnub/Pubnub.java:476 | splitting "/" + piece + rest gives the piece first |
| Requests.PathSplits | j2me/src/pubnub/Pubnub.java:466-491 | the path splits back into exactly the encoded segments |
| Requests.UrlRoundTrip | j2me/src/pubnub/Pubnub.java:466-491 | the URL starts with the origin, and each piece after it percent-decodes to its segment's UTF-8 bytes |
| Requests.PublishUrl | j2me/src/pubnub/Pubnub.java:218-239 | a publish URL splits after the origin into exactly seven pieces: "publish", the publish key, the subscribe key, the signature ("0" without a secret key, else the HMAC of the string to sign), the channel, "0" and the message; each key, channel, signature and message piece percent-decodes to the UTF-8 bytes of its text |
| Requests.SubscribeUrl | j2me/src/pubnub/Pubnub.java:257-267 | a subscribe URL splits after the origin into exactly five pieces: "subscribe", the subscribe key, the channel, "0" and the timetoken, each decoding to its text's UTF-8 bytes |
| Requests.HistoryUrl | j2me/src/pubnub/Pubnub.java:431-443 | a history URL splits after the origin into exactly five pieces: "history", the subscribe key, the channel, "0" and the limit, whose text parses back to the limit |
| Requests.TimeUrl | j2me/src/pubnub/Pubnub.java:358-363 | the URL time() requests is the origin followed by "/time/0" |
| Requests.UrlOfTwo | j2me/src/pubnub/Pubnub.java:466-491 | the URL for two segments is the origin, "/", the first segment encoded, "/", the second encoded |
| Requests.PlainLiteral | j2me/src/pubnub/Pubnub.java:881-894 | a literal of lower-case letters and digits is not changed by encode |
| Requests.RequestNames | j2me/src/pubnub/Pubnub.java:230-441 | the request names "publish", "subscribe", "history" and "time" are not changed by encode |
| Requests.DecimalPlain | j2me/src/pubnub/Pubnub.java:441 | the decimal text of the limit is not changed by encode |
| Requests.UrlPieces | j2me/src/pubnub/Pubnub.java:466-491 | what getURL puts after the origin splits into exactly the encoded segments, in order |
| Oracles.ToText | j2me/src/pubnub/Pubnub.java:641-669 | optString/getString of a string is the string itself |
| JsonValues.ObjectAdd | c-libevent/pubnub/PubnubCrypto.c:184-185 | adding replaces the value of an existing key in place (same keys) or appends a new member; the key is present afterwards |
| JsonValues.KeyIndex | c-libevent/pubnub/PubnubCrypto.c:184-185 | the position of the member with the key, or -1 exactly when no member has it |
| Registry.Subscribed | j2me/src/pubnub/Pubnub.java:313-346 | the channel was present exactly when tracked; then the registry is unchanged; otherwise one entry (connected, not first) is appended, to a new vector when there was none |
| Registry.SubscribedKeepsNamesUnique | j2me/src/pubnub/Pubnub.java:313-346 | after _subscribe the channel is tracked and no name has two entries |
| Registry.Unsubscribed | j2me/src/pubnub/Pubnub.java:453-464 | the first connected entry of the channel is switched off (connected and first false) and nothing else changes; with none, nothing changes |
| Registry.LiveIndex | j2me/src/pubnub/Pubnub.java:453-464 | the position of the first connected entry of the channel, or -1 exactly when there is none |
| Registry.FirstLiveUnique | j2me/src/pubnub/Pubnub.java:456-462 | the loop's `break` picks one entry: the first connected one is unique |
| Registry.UnsubscribeHalts | j2me/src/pubnub/Pubnub.java:453-464 | the channel names are unchanged; a channel with a live entry becomes halted; unique names stay unique |
| Registry.FirstUnwelcomedUnique | j2me/src/pubnub/Pubnub.java:622-636 | the first entry of the channel with `first` clear is unique |
| Registry.Welcomed | j2me/src/pubnub/Pubnub.java:622-636 | connect fires exactly when an entry of the channel has `first` clear; the first such entry gets `first` set and nothing else changes |
| Registry.UnwelcomedIndex | j2me/src/pubnub/Pubnub.java:622-636 | the position of the first entry of the channel with `first` clear, or -1 exactly when there is none |
| Registry.WelcomeOnce | j2me/src/pubnub/Pubnub.java:622-636 | a second scan right after the first never fires connect; names unchanged and unique |
| Registry.Without | j2me/src/pubnub/Pubnub.java:584-593 | the entries not of the channel, in order |
| Registry.WithoutTail | j2me/src/pubnub/Pubnub.java:584-593 | Without and Count of a suffix, unfolded by one entry |
| Registry.RemoveKeepsUnique | j2me/src/pubnub/Pubnub.java:588 | removeElement keeps names unique |
| Registry.SweepRemoveStep | j2me/src/pubnub/Pubnub.java:584-593 | one removal step of the sweep, against the Without/Count description |
| Registry.SweepDropsAt | j2me/src/pubnub/Pubnub.java:584-593 | when record i is the channel's, the loop removes it, counts one, and carries on at index i + 1 of the shortened vector, passing over the record that slid into place i |
| Registry.SweepSkips | j2me/src/pubnub/Pubnub.java:584-593 | a record of another channel is kept and the loop moves on to the next index |
| Registry.SweepFrom | j2me/src/pubnub/Pubnub.java:584-593 | the loop from index i: the entries left and the removals counted add up to the length of the vector |
| Registry.SweepFromKeepsPrefix | j2me/src/pubnub/Pubnub.java:584-593 | the loop from index i never touches the entries before i, and removes something exactly when an entry of the channel sits at i or later |
| Registry.Sweep | j2me/src/pubnub/Pubnub.java:584-593 | the entries left and the disconnects fired add up to the length of the vector |
| Registry.SweepFiresWhenTracked | j2me/src/pubnub/Pubnub.java:584-593 | the loop fires at least one disconnect exactly when the channel is tracked |
| Registry.SweepSkipsPrefix | j2me/src/pubnub/Pubnub.java:584-593 | entries of other channels before i are passed over without any change |
| Registry.SweepFromNoDup | j2me/src/pubnub/Pubnub.java:584-593 | with unique names, the loop from index i keeps the prefix and removes the channel's entries from the rest, counting them |
| Registry.SweepRemovesChannel | j2me/src/pubnub/Pubnub.java:584-593 | with unique names, the sweep removes the channel's entry, keeps every other entry in order, and fires one disconnect exactly when the channel was tracked |
| Registry.CountOfUnique | j2me/src/pubnub/Pubnub.java:584-593 | with unique names, the channel has one entry if tracked, else none |
| Registry.WithoutKeepsUnique | j2me/src/pubnub/Pubnub.java:584-593 | what is left keeps unique names and holds only original entries |
| Registry.SweepSkipsNeighbour | j2me/src/pubnub/Pubnub.java:584-593 | whenever the channel's first entry at i is directly followed by another entry of it, the loop as written removes the one at i and leaves the other in slot i, so the channel is still tracked afterwards; EngineFacts.StepsKeepNamesUnique shows no sequence of operations reaches such a registry |
| Engine.Repeat | j2me/src/pubnub/Pubnub.java:584-606 | n copies of a callback event |
| Engine.Notify | j2me/src/pubnub/Pubnub.java:276-278 | a callback gives one event exactly when a callback object is installed, and that event is the callback's; otherwise none |
| Engine.RepeatOneMore | j2me/src/pubnub/Pubnub.java:584-606 | one more callback is appended at the end |
| Engine.KindsDiffer | j2me/src/pubnub/Pubnub.java:532-558 | the request kinds "time", "history", "publish" and "subscribe" differ, so one branch runs |
| Engine.MissesExactly | j2me/src/pubnub/Pubnub.java:595-618 | when the first k time() calls answer 0 and call k answers, k calls missed |
| Engine.Misses | j2me/src/pubnub/Pubnub.java:595-618 | the number of failed time() calls before one answers, and that call answers |
| Engine.RequestSpec | j2me/src/pubnub/Pubnub.java:499-513 | the registry is unchanged; exactly one event is appended, the Sent event for the segments with the URL getURL builds from them; the timetoken changes only for a subscribe |
| Engine.SubscribeBaseSpec | j2me/src/pubnub/Pubnub.java:257-298 | the registry is unchanged and at most one event is appended to the trace |
| Engine.SubscribeInnerSpec | j2me/src/pubnub/Pubnub.java:308-349 | afterwards the channel is tracked; at most two events (the "Already Connected." error and the poll) are appended |
| Engine.SubscribeSpec | j2me/src/pubnub/Pubnub.java:250-255 | afterwards the channel is tracked and the trace only grows |
| Engine.UnsubscribeSpec | j2me/src/pubnub/Pubnub.java:453-464 | throws exactly when there is no vector; otherwise the trace and the timetoken are unchanged |
| Engine.PublishSpec | j2me/src/pubnub/Pubnub.java:175-240 | throws exactly for a null message; otherwise registry and timetoken are unchanged and exactly one event is appended |
| Engine.HistorySpec | j2me/src/pubnub/Pubnub.java:431-444 | registry and timetoken are unchanged and exactly one event is appended |
| Engine.Dropped | j2me/src/pubnub/Pubnub.java:582 | a null response, or a reply without element 1, counts as dropped; a body that does not parse never does |
| Engine.NextTimetoken | j2me/src/pubnub/Pubnub.java:641-643 | never empty; element 1's text when that is not empty (otherwise "0") |
| Engine.Payload | j2me/src/pubnub/Pubnub.java:647-676 | without a cipher key no message throws and objects and arrays are passed on as they are; anything else is delivered as a string |
| Engine.DispatchFrom | j2me/src/pubnub/Pubnub.java:646-683 | at most one event per remaining message, and exactly one per remaining message when the loop completes |
| Engine.DeliverSpec | j2me/src/pubnub/Pubnub.java:639-686 | the registry is unchanged and the trace only grows |
| Engine.DropSpec | j2me/src/pubnub/Pubnub.java:582-619 | afterwards there is a vector, and the trace only grows |
| Engine.SubscribeResponse | j2me/src/pubnub/Pubnub.java:558-687 | with no vector nothing happens; otherwise the trace only grows |
| Engine.HistoryResponse | j2me/src/pubnub/Pubnub.java:534-548 | registry and timetoken are unchanged and at most one callback is appended |
| Engine.PublishResponse | j2me/src/pubnub/Pubnub.java:549-557 | registry and timetoken are unchanged and exactly one callback is appended |
| Engine.OnCompleteSpec | j2me/src/pubnub/Pubnub.java:520-710 | without a callback, or for a body that does not parse, nothing changes; otherwise the trace only grows |
| EngineFacts.SubscribeNewChannel | j2me/src/pubnub/Pubnub.java:323-347 | subscribing to an untracked channel appends one connected, not-yet-welcomed entry and queues one poll from "0" |
| EngineFacts.SubscribeTrackedChannel | j2me/src/pubnub/Pubnub.java:328-347 | a tracked channel gets one "Already Connected." error, the registry is unchanged, and the poll is still issued unless the channel is halted |
| EngineFacts.UnsubscribedChannelStops | j2me/src/pubnub/Pubnub.java:560-578 | after unsubscribe, the next poll (Pubnub.java:269-287) and the next subscribe response each fire one disconnect and queue nothing |
| EngineFacts.HaltedResponse | j2me/src/pubnub/Pubnub.java:560-578 | a subscribe response for a halted channel fires exactly one disconnect and changes nothing else |
| EngineFacts.MessageEvents | j2me/src/pubnub/Pubnub.java:646-683 | one subscribe callback per message, in index order |
| EngineFacts.DispatchInOrder | j2me/src/pubnub/Pubnub.java:646-683 | when no decryption throws, the loop delivers every message in index order and completes |
| EngineFacts.DispatchStopsAtThrow | j2me/src/pubnub/Pubnub.java:646-683 | a decryption that throws at message j delivers exactly the messages before j and ends the handler |
| EngineFacts.PlainTextMessagesRepeatFirst | j2me/src/pubnub/Pubnub.java:669-676 | without a cipher key, every message that is neither object nor array is delivered as element 0's text |
| EngineFacts.WelcomedKeepsHalted | j2me/src/pubnub/Pubnub.java:622-636 | the connect scan changes neither names nor connected flags |
| EngineFacts.HealthyResponse | j2me/src/pubnub/Pubnub.java:580-686 | a healthy response fires connect if the channel was not yet welcomed, then the messages in order, then polls from element 1 (or "0" when it is empty) |
| EngineFacts.NoConnectTrans | j2me/src/pubnub/Pubnub.java:520-687 | "no connect callback since" is transitive |
| EngineFacts.NoConnectAppend | j2me/src/pubnub/Pubnub.java:520-687 | appending events that are not connects keeps it |
| EngineFacts.SubscribeInnerNoConnect | j2me/src/pubnub/Pubnub.java:308-349 | _subscribe never fires connect |
| EngineFacts.SubscribeBaseNoConnect | j2me/src/pubnub/Pubnub.java:257-298 | _subscribe_base never fires connect and leaves the registry alone |
| EngineFacts.DispatchNoConnect | j2me/src/pubnub/Pubnub.java:646-683 | the message loop fires only subscribe callbacks |
| EngineFacts.DeliverNoConnect | j2me/src/pubnub/Pubnub.java:639-686 | the message tail fires no connect and leaves the registry alone |
| EngineFacts.DropNoConnect | j2me/src/pubnub/Pubnub.java:582-619 | the drop path never fires connect |
| EngineFacts.ConnectNeedsUnwelcomed | j2me/src/pubnub/Pubnub.java:520-687 | without an un-welcomed entry of the channel, a subscribe response fires no connect |
| EngineFacts.ConnectAtMostOnce | j2me/src/pubnub/Pubnub.java:622-636 | after one healthy response, the next subscribe response for the channel fires no connect |
| EngineFacts.NewEntryNotHalted | j2me/src/pubnub/Pubnub.java:323-327 | the entry the resubscribe adds is live, and the resubscribe appends it |
| EngineFacts.DeliverAll | j2me/src/pubnub/Pubnub.java:639-686 | without a throw and on a live channel, the tail dispatches every message and polls from the next timetoken |
| EngineFacts.DropResumes | j2me/src/pubnub/Pubnub.java:582-619 | after k failed probes the drop path resubscribes from current_timetoken, or from the probed server time when that is "0" |
| EngineFacts.ResubscribeResumes | j2me/src/pubnub/Pubnub.java:604-616 | once probe k answers after the sweep and k reconnect callbacks, _subscribe runs from current_timetoken, or from the probed time when current_timetoken is "0" |
| EngineFacts.DropWithoutBody | j2me/src/pubnub/Pubnub.java:582-619 | a null response on unique names: one disconnect, k reconnects, the entry re-added, one poll from the resume timetoken, then nothing |
| EngineFacts.DropWithBodyPollsTwice | j2me/src/pubnub/Pubnub.java:582-686 | a dropped response with a body resubscribes, delivers the body, and polls a second time |
| EngineFacts.SubscribeInnerConsistent | j2me/src/pubnub/Pubnub.java:308-349 | _subscribe keeps names unique |
| EngineFacts.DropConsistent | j2me/src/pubnub/Pubnub.java:582-619 | the drop path keeps names unique |
| EngineFacts.SubscribeResponseConsistent | j2me/src/pubnub/Pubnub.java:558-687 | the subscribe branch keeps names unique |
| EngineFacts.StepsKeepNamesUnique | j2me/src/pubnub/Pubnub.java:175-687 | no operation and no response ever gives a channel name a second entry |
| EngineFacts.RequestsKeepRegistry | j2me/src/pubnub/Pubnub.java:175-240 | publish, and history (Pubnub.java:431-444), leave the registry alone |
| EngineFacts.OnCompleteConsistent | j2me/src/pubnub/Pubnub.java:520-687 | every response keeps names unique |
| EngineFacts.PublishOnlyQueues | j2me/src/pubnub/Pubnub.java:175-240 | publish throws exactly for a null message; otherwise registry and timetoken are unchanged and the only event is Sent for PublishSegments(publish key, subscribe key, signature, channel, message) with its getURL URL; its response fires one callback, with ["0", error] for a missing reply |
| EngineFacts.HistoryOnlyQueues | j2me/src/pubnub/Pubnub.java:431-444 | history queues one request for its five segments and leaves registry and timetoken alone; without a cipher key its response fires one callback with the body, or null |
| Client.ChannelStatus.constructor | j2me/src/pubnub/Pubnub.java:39-43 | a new record for the channel, connected, not yet welcomed |
| Client.EntriesOf | j2me/src/pubnub/Pubnub.java:44 | the vector's records, as values, index by index |
| Client.Pubnub.constructor | j2me/src/pubnub/Pubnub.java:57-127 | a fresh client: no vector, timetoken "0", nothing done yet, the keys stored and the scheme put in front of the host |
| Client.Pubnub.Init | j2me/src/pubnub/Pubnub.java:113-127 | the keys are stored and the scheme is put in front of ORIGIN (again, if init is called twice) |
| Client.Pubnub.SetCallback | j2me/src/pubnub/Pubnub.java:147-149 | only the callback changes |
| Client.Pubnub.Request | j2me/src/pubnub/Pubnub.java:499-513 | a subscribe records segment 4 as the current timetoken; every request is queued under its URL |
| Client.Pubnub.FindHalted | j2me/src/pubnub/Pubnub.java:269-284 | the scan finds a switched-off entry of the channel exactly when there is one |
| Client.Pubnub.SubscribeBase | j2me/src/pubnub/Pubnub.java:257-298 | _subscribe_base moves the state as its step function says |
| Client.Pubnub.ChannelExists | j2me/src/pubnub/Pubnub.java:314-322 | the scan answers whether the channel is tracked |
| Client.Pubnub.AddChannel | j2me/src/pubnub/Pubnub.java:324-327 | addElement appends one connected, not-yet-welcomed entry |
| Client.Pubnub.SubscribeInner | j2me/src/pubnub/Pubnub.java:308-349 | _subscribe moves the state as its step function says |
| Client.Pubnub.Subscribe | j2me/src/pubnub/Pubnub.java:250-255 | subscribe is _subscribe from timetoken "0" |
| Client.Pubnub.SwitchOff | j2me/src/pubnub/Pubnub.java:459-460 | record i gets connected and first false; every other record is unchanged |
| Client.Pubnub.Unsubscribe | j2me/src/pubnub/Pubnub.java:453-464 | it throws exactly when there is no vector; otherwise the state moves as the step function says |
| Client.Pubnub.Publish | j2me/src/pubnub/Pubnub.java:175-240 | it throws exactly for a null message; otherwise the state moves as the step function says |
| Client.Pubnub.History | j2me/src/pubnub/Pubnub.java:431-444 | history moves the state as its step function says |
| Client.Pubnub.MarkFirst | j2me/src/pubnub/Pubnub.java:627 | record i gets first set; every other record is unchanged |
| Client.Pubnub.Welcome | j2me/src/pubnub/Pubnub.java:622-636 | the connect scan leaves the registry as Registry.Welcomed says and fires connectCallback exactly when Registry.Welcomed reports it; nothing else changes |
| Client.Pubnub.DropAt | j2me/src/pubnub/Pubnub.java:588-591 | removeElement takes record i out of the vector and one disconnect callback is fired for the channel |
| Client.Pubnub.SweepOne | j2me/src/pubnub/Pubnub.java:584-593 | one turn of the removal loop: the record at i is removed, with one disconnect callback, exactly when it belongs to the channel; Registry.SweepFrom advances by one index accordingly |
| Client.Pubnub.SweepChannel | j2me/src/pubnub/Pubnub.java:584-593 | the removal loop does what Registry.Sweep says, with one disconnect per removal |
| Client.Pubnub.Unpack | j2me/src/pubnub/Pubnub.java:647-676 | the payload of message i, or the throw, is what Engine.Payload says |
| Client.Pubnub.Fire | j2me/src/pubnub/Pubnub.java:654-677 | firing a callback appends its event to the trace and changes nothing else |
| Client.Pubnub.DispatchOne | j2me/src/pubnub/Pubnub.java:645-679 | one turn of the message loop: a throw changes nothing and ends the loop as Engine.DispatchFrom does; otherwise one subscribe callback for the payload is fired and the loop goes on from the next message |
| Client.Pubnub.Dispatch | j2me/src/pubnub/Pubnub.java:646-683 | the message loop appends the events of Engine.DispatchFrom and reports whether it completed |
| Client.Pubnub.Deliver | j2me/src/pubnub/Pubnub.java:639-686 | the message tail of the subscribe branch moves the state as its step function says |
| Client.Pubnub.Drop | j2me/src/pubnub/Pubnub.java:582-686 | the drop path moves the state as its step function says |
| Client.Pubnub.Probe | j2me/src/pubnub/Pubnub.java:595-603 | the reconnect loop makes Engine.Misses(probes) failed time() calls, firing one reconnectCallback for each, and changes nothing else |
| Client.Pubnub.Accept | j2me/src/pubnub/Pubnub.java:620-686 | on a reply with messages, the connect scan runs first and the messages are then delivered as Engine.DeliverSpec says |
| Client.Pubnub.SubscribeReply | j2me/src/pubnub/Pubnub.java:558-687 | the subscribe branch moves the state as its step function says |
| Client.Pubnub.HistoryReply | j2me/src/pubnub/Pubnub.java:534-548 | the history branch moves the state as its step function says |
| Client.Pubnub.OnComplete | j2me/src/pubnub/Pubnub.java:520-710 | OnComplet moves the state as Engine.OnCompleteSpec says, for every kind of request and response |
| CryptoStrings.SubstringAsWritten | c-libevent/pubnub/PubnubCrypto.c:57-63 | the code as written: when it returns a string, it is at most len characters of str from begin |
| CryptoStrings.Substring | c-libevent/pubnub/PubnubCrypto.c:57-63 | null exactly for a null or empty string or when begin + len exceeds its length; otherwise the len characters from begin |
| CryptoStrings.SubstringAsWrittenAgrees | c-libevent/pubnub/PubnubCrypto.c:57-63 | while begin + len does not wrap, the code as written is the corrected function |
| CryptoStrings.SubstringWraps | c-libevent/pubnub/PubnubCrypto.c:58-62 | substring("abc", 1, SIZE_MAX) passes the check and returns "bc" |
| CryptoStrings.WalkBack | c-libevent/pubnub/PubnubCrypto.c:66-68 | the backward walk stops at the last non-space character, or steps before the string |
| CryptoStrings.RTrimAsWritten | c-libevent/pubnub/PubnubCrypto.c:65-71 | rtrim reads before the buffer exactly when the string is empty or all white space |
| CryptoStrings.TrimRight | c-libevent/pubnub/PubnubCrypto.c:65-71 | a prefix of the string; what is removed is white space; the result does not end in white space |
| CryptoStrings.TrimRightUnique | c-libevent/pubnub/PubnubCrypto.c:65-71 | any prefix with those three properties is the trim |
| CryptoStrings.RTrimAsWrittenTrims | c-libevent/pubnub/PubnubCrypto.c:65-71 | wherever rtrim is defined, it removes exactly the trailing white space |
| CryptoStrings.RTrimEmptyReadsBefore | c-libevent/pubnub/PubnubCrypto.c:66-67 | rtrim("") and rtrim(" ") read before the buffer; the corrected trim gives "" |
| CryptoStrings.TrimRightIdempotent | c-libevent/pubnub/PubnubCrypto.c:65-71 | trimming twice is trimming once |
| CryptoStrings.RTrim | c-libevent/pubnub/PubnubCrypto.c:65-71 | the NUL moves to just after the last non-space character; the string left is the trim; no other byte changes |
| CryptoStrings.StringForDecrypt | c-libevent/pubnub/PubnubCrypto.c:73-85 | the first and last characters are removed from a string of length 2 or more; shorter strings give "" |
| CryptoStrings.StringForDecryptUnquotes | c-libevent/pubnub/PubnubCrypto.c:73-85 | a quoted string comes back without its quotes, and nothing else changes |
| CryptoStrings.StrcpyOutside | c-libevent/pubnub/PubnubCrypto.c:75 | the first of strcpy's stores that falls outside the buffer, if any, lies between the buffer size and the NUL's index |
| CryptoStrings.StrcpyLeavesAtEnd | c-libevent/pubnub/PubnubCrypto.c:75 | strcpy into a buffer leaves it exactly when the string and its NUL do not fit, and then first at the buffer's end |
| CryptoStrings.CopyOverruns | c-libevent/pubnub/PubnubCrypto.c:74-75 | with malloc(strlen(input)), the store of the NUL at index strlen(input) is the first outside the buffer, for every input; one more byte keeps every store inside |
| CryptoStrings.GetStringForDecrypt | c-libevent/pubnub/PubnubCrypto.c:73-85 | the copy-and-cut with a buffer of strlen + 1 gives StringForDecrypt |
| CryptoStrings.Spaces | c-libevent/pubnub/PubnubCrypto.c:100-103 | n blanks |
| CryptoStrings.Padded | c-libevent/pubnub/PubnubCrypto.c:91-104 | the input is kept as a prefix, followed by exactly strlen % 8 blanks |
| CryptoStrings.PadForEncrypt | c-libevent/pubnub/PubnubCrypto.c:91-104 | the two loops fill a fresh buffer of ans + in_len + 1 with the padded string and a NUL |
| CryptoStrings.TrimRightSpaces | c-libevent/pubnub/PubnubCrypto.c:100-103 | blanks appended to a string disappear under the trim |
| CryptoStrings.PaddingTrimmed | c-libevent/pubnub/PubnubCrypto.c:91-104 | the trim removes the padding, and any white space the input itself ended with |
| CryptoJson.EncryptString | c-libevent/pubnub/PubnubCrypto.c:87-134 | the cipher gets the padded input; a failing EVP call returns its error message |
| CryptoJson.DecryptString | c-libevent/pubnub/PubnubCrypto.c:136-176 | a successful decryption is a prefix of the plaintext that does not end in white space |
| CryptoJson.DecryptStringTrims | c-libevent/pubnub/PubnubCrypto.c:136-176 | a successful decryption is the plaintext, cut to the reported length and trimmed on the right |
| CryptoJson.DecryptAfterEncrypt | c-libevent/pubnub/PubnubCrypto.c:87-176 | when the cipher gives back the padded input (strlen + 1 reported with the sealed NUL, or any length at least that), decrypting an encryption gives the input without its trailing white space (the input itself when it has none) |
| CryptoJson.HasKeyAppend | c-libevent/pubnub/PubnubCrypto.c:184-185 | appending a member adds exactly its key |
| CryptoJson.SameKeysSameHas | c-libevent/pubnub/PubnubCrypto.c:184-185 | members with the same keys have the same key set |
| CryptoJson.ObjectAddDistinct | c-libevent/pubnub/PubnubCrypto.c:184-185 | adding to an object whose keys are distinct keeps them distinct |
| CryptoJson.ObjectAddHasKey | c-libevent/pubnub/PubnubCrypto.c:184-185 | after adding, a key is present exactly when it was present before or is the added key |
| CryptoJson.AddedAllKeys | c-libevent/pubnub/PubnubCrypto.c:178-200 | the object built has exactly the input's key set |
| CryptoJson.AddedAllDistinctKeys | c-libevent/pubnub/PubnubCrypto.c:178-200 | the object built holds each key once, whatever the input |
| CryptoJson.AddedAll | c-libevent/pubnub/PubnubCrypto.c:178-200 | the object built has at most as many members as the input, and at least one when the input has any |
| CryptoJson.AddedAllDistinct | c-libevent/pubnub/PubnubCrypto.c:178-200 | for an input with distinct keys, the object built maps each member's value, in order |
| CryptoJson.MapObject | c-libevent/pubnub/PubnubCrypto.c:178-200 | the foreach loop builds the object AddedAll describes |
| CryptoJson.EncryptValue | c-libevent/pubnub/PubnubCrypto.c:182-185 | every value is replaced by a string |
| CryptoJson.DecryptValue | c-libevent/pubnub/PubnubCrypto.c:194-197 | every value is replaced by a string |
| CryptoJson.DecryptValueTrimmed | c-libevent/pubnub/PubnubCrypto.c:194-197 | when the value's text decrypts, the string is the plaintext cut at its reported length with trailing white space removed, so it never ends in white space |
| CryptoJson.EncryptJsonObject | c-libevent/pubnub/PubnubCrypto.c:178-188 | each value is replaced by the encryption of its JSON text, under the same key |
| CryptoJson.DecryptJsonObject | c-libevent/pubnub/PubnubCrypto.c:190-200 | each value is replaced by the decryption of its JSON text without quotes, under the same key |
| CryptoJson.DecryptedObject | c-libevent/pubnub/PubnubCrypto.c:190-200 | an object with no more members than the input, and at least one when the input has any |
| CryptoJson.DecryptedObjectKeys | c-libevent/pubnub/PubnubCrypto.c:190-200 | the decrypted object holds a key exactly when the input object does |
| CryptoJson.MapArray | c-libevent/pubnub/PubnubCrypto.c:202-226 | the loop builds an array of the same length with element i mapped from input element i |
| CryptoJson.EncryptJsonArray | c-libevent/pubnub/PubnubCrypto.c:202-213 | same length; element i is the encryption of element i's JSON text |
| CryptoJson.DecryptJsonArray | c-libevent/pubnub/PubnubCrypto.c:215-226 | decryptJSONArray builds what DecryptedArray describes |
| CryptoJson.DecryptedArray | c-libevent/pubnub/PubnubCrypto.c:215-226 | same length; element i is the decryption of element i's unquoted JSON text |
| CryptoJson.Decrypt | c-libevent/pubnub/PubnubCrypto.c:228-255 | the result is an object, an array or a string; an empty message gives {} |
| CryptoJson.DecryptKeepsShape | c-libevent/pubnub/PubnubCrypto.c:228-255 | only element 0 matters; an object comes back as an object with the same keys, an array as an array of the same length, a string as a string; anything else, or an empty message, gives {} |
| CryptoJson.HistoryFrom | c-libevent/pubnub/PubnubCrypto.c:264-285 | one output element per input element |
| CryptoJson.HistoryItem | c-libevent/pubnub/PubnubCrypto.c:269-283 | an object element comes back an object with no more members (its keys are those of `DecryptedObjectKeys`), an array element an array of the same length; any other element gives the previous output |
| CryptoJson.HistoryFromShape | c-libevent/pubnub/PubnubCrypto.c:264-285 | object and array elements are decrypted in place; any other element repeats the output before it |
| CryptoJson.DecryptHistoryShape | c-libevent/pubnub/PubnubCrypto.c:257-287 | same length as the input; objects and arrays decrypted; any other element repeats the previous output, or {} at the front |
| CryptoJson.DecryptHistory | c-libevent/pubnub/PubnubCrypto.c:257-287 | an array with one element per element of the input |
| CryptoJson.DecryptHistry | c-libevent/pubnub/PubnubCrypto.c:257-287 | the loop builds what DecryptHistory describes |

## Left out

- HTTP transport and queueing are not modelled. This covers `getViaHttpsConnection`, `AsyncHttpManager`/`HttpCallback`, headers and GZIP (Pubnub.java:499-514, 720-770). A response is an input (`Response`), and a queued request is a `Sent` event in the trace.
- `time()` parses a double (Pubnub.java:358-381). Its answers are the input `probes`. An answer other than 0 is shown as the text `time_token + ""` gives.
- `Thread.sleep` is not modelled.
- The reconnect loop runs only as long as the given `probes` last. If they are all 0, the model stops in the "still probing" state.
- Concurrency between the caller and the HTTP worker is left out. The client is one sequential state machine.
- `uuid()` is left out because it is random.
- HMAC-SHA256, the Java `PubnubCrypto` class, org.json.me rendering and `optInt` are abstract functions in `Oracles.Env`. Their code is not part of this model.
- OpenSSL's MD5, AES-128-CBC and Base64, `strip`, `strconcat` and json-c's serialiser are abstract functions in `CryptoJson.Cipher`.
  - No encryption round trip is proved without assuming one.
  - `getMD5` hashing `sizeof(passward)` bytes is part of `seal`/`open`.
  - So is the unterminated `plaintext` buffer that `strlen` reads in `decryptString`.
- Java exceptions the handler catches are modelled as the handler stopping.
- A JSON number is an integer (`JInt`); doubles are not modelled.
- The C string helpers take the same `Text` type as the Java side. There is no separate byte type for `char`.
- Memory ownership and aliasing in the C mappers are not modelled. These are the leaks, and `decryptHistry` adding the same `json_object` more than once. The model works on values.
- `Client.Pubnub.Unsubscribe`: calling it before any subscribe throws a NullPointerException. The model reports that as `thrown`, not as an exception.
- Null arguments are not modelled: a segment, channel or history limit is always a string or number. So the model leaves out:
  - the NullPointerException `limit.toString()` throws for a missing limit (Pubnub.java:441);
  - getURL's `catch` (Pubnub.java:477-487), which on a failing segment keeps the "/" already appended and fires errorCallback("No Channel Neme", ["Failed UTF-8 Encoding URL."]).
- `UrlEncoding.Encode`: the writer's IOException branch (Pubnub.java:837-840), which resets the byte buffer and skips the character, is not modelled. An in-memory `ByteArrayOutputStream` does not throw it.
- `CryptoJson.DecryptString`: the trim after decryption is the corrected `TrimRight`, not the `rtrim` of PubnubCrypto.c:175. On an empty or all-blank plaintext `rtrim` reads before the buffer (see Findings), and C gives that no meaning; the model returns "" there. `CryptoJson.DecryptStringTrims` and `CryptoJson.DecryptAfterEncrypt` inherit this: for the inputs "" and "   " they promise "".
- `UrlEncoding.CodePoint`: a lone surrogate is modelled as the '?' that Java's UTF-8 encoder writes. The writer's buffering of a pending high surrogate between calls is not modelled.

## Findings

| source | as written | input that shows it | evidently intended | confidence | as-written member | corrected member |
|---|---|---|---|---|---|---|
| c-libevent/pubnub/PubnubCrypto.c:58-62 | `strlen(str) < (begin + len)` adds in size_t, so a large `len` wraps past SIZE_MAX and passes the check | `substring("abc", 1, SIZE_MAX)` returns "bc", not null | null whenever begin + len exceeds the length | not executed | CryptoStrings.SubstringWraps | CryptoStrings.Substring |
| c-libevent/pubnub/PubnubCrypto.c:66-67 | `while (isspace(*--back))` has no lower bound | `rtrim("")`, reached from `decryptString` when the plaintext is empty or all blanks, reads the byte before the buffer | stop at the start and return "" | not executed | CryptoStrings.RTrimEmptyReadsBefore | CryptoStrings.RTrim |
| c-libevent/pubnub/PubnubCrypto.c:74-75 | `malloc(strlen(input))` and then `strcpy`, which writes strlen + 1 bytes | any input, e.g. `"ab"` with its quotes: 4 bytes are allocated and 5 written | `malloc(strlen(input) + 1)` | not executed | CryptoStrings.CopyOverruns | CryptoStrings.GetStringForDecrypt |
