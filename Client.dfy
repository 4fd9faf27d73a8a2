/** The Pubnub class of the J2ME client, with its state updated in place:
    the subscriptions vector holds ChannelStatus objects whose flags the
    handlers flip, and every method is proved to move the abstract state
    exactly as the step function of Engine says. */
module Client {
  import opened Wrappers
  import opened Texts
  import opened JsonValues
  import opened UrlEncoding
  import opened Oracles
  import opened Requests
  import opened Registry
  import opened Engine

  class ChannelStatus {
    var channel: Text
    var connected: bool
    var first: bool

    /** `new ChannelStatus()` followed by setting the channel and
        `connected = true`; `first` keeps its default, false. */
    constructor(ch: Text)
      ensures channel == ch && connected && !first
    {
      channel := ch;
      connected := true;
      first := false;
    }
  }

  /** The records of a vector, as values. */
  function EntriesOf(s: seq<ChannelStatus>): (t: Table)
    reads s
    ensures |t| == |s|
    ensures forall i :: 0 <= i < |s| ==> t[i] == Entry(s[i].channel, s[i].connected, s[i].first)
  {
    seq(|s|, i requires 0 <= i < |s| reads s => Entry(s[i].channel, s[i].connected, s[i].first))
  }

  /** One turn of the message loop: message i unpacks to v, so its event
      joins those already fired and the loop goes on from i + 1. */
  lemma DispatchAdvance(env: Env, cipherOn: bool, ch: Text, msgs: seq<Json>, i: nat, evs: seq<Event>, v: Json)
    requires i < |msgs| && Payload(env, cipherOn, msgs, i) == Some(v)
    requires DispatchFrom(env, cipherOn, ch, msgs, 0).0 == evs + DispatchFrom(env, cipherOn, ch, msgs, i).0
    requires DispatchFrom(env, cipherOn, ch, msgs, 0).1 == DispatchFrom(env, cipherOn, ch, msgs, i).1
    ensures DispatchFrom(env, cipherOn, ch, msgs, 0).0 == (evs + [MessageEvent(ch, v)]) + DispatchFrom(env, cipherOn, ch, msgs, i + 1).0
    ensures DispatchFrom(env, cipherOn, ch, msgs, 0).1 == DispatchFrom(env, cipherOn, ch, msgs, i + 1).1
  {
    var rest := DispatchFrom(env, cipherOn, ch, msgs, i + 1);
    assert DispatchFrom(env, cipherOn, ch, msgs, i) == ([MessageEvent(ch, v)] + rest.0, rest.1);
    assert evs + ([MessageEvent(ch, v)] + rest.0) == (evs + [MessageEvent(ch, v)]) + rest.0;
  }

  class Pubnub {
    var origin: Text
    var publishKey: Text
    var subscribeKey: Text
    var secretKey: Text
    var cipherKey: Text
    var ssl: bool
    /** `_callback != null`. */
    var callbackSet: bool
    var currentTimetoken: Text
    /** The vector; `vectorCreated` is false while the field is null. */
    var subscriptions: seq<ChannelStatus>
    var vectorCreated: bool
    /** Callbacks fired and requests queued, in order. */
    var trace: seq<Event>
    ghost var Repr: set<object>

    /** Every record is owned by the client and held once. */
    ghost predicate Valid()
      reads this
    {
      (!vectorCreated ==> subscriptions == []) &&
      this !in Repr &&
      (forall i :: 0 <= i < |subscriptions| ==> subscriptions[i] in Repr) &&
      (forall i, j :: 0 <= i < j < |subscriptions| ==> subscriptions[i] != subscriptions[j])
    }

    function Settings(): Config
      reads this
    {
      Config(origin, publishKey, subscribeKey, secretKey, cipherKey, callbackSet)
    }

    function Model(): State
      reads this, subscriptions
    {
      State(if vectorCreated then Some(EntriesOf(subscriptions)) else None, currentTimetoken, trace)
    }

    /** The constructors all end in init; before it ORIGIN is the bare
        host and the timetoken "0". */
    constructor(pub: Text, sub: Text, secret: Text, cipher: Text, sslOn: bool)
      ensures Valid() && fresh(Repr)
      ensures Model() == State(None, Lit("0"), [])
      ensures Settings() == Config(WithScheme(Host, sslOn), pub, sub, secret, cipher, false)
    {
      origin := Host;
      publishKey := [];
      subscribeKey := [];
      secretKey := [];
      cipherKey := [];
      ssl := false;
      callbackSet := false;
      currentTimetoken := Lit("0");
      subscriptions := [];
      vectorCreated := false;
      trace := [];
      Repr := {};
      new;
      Init(pub, sub, secret, cipher, sslOn);
    }

    /** init: store the keys and put the scheme in front of ORIGIN. Called
        again, it puts a second scheme in front. */
    method Init(pub: Text, sub: Text, secret: Text, cipher: Text, sslOn: bool)
      requires Valid()
      modifies this
      ensures Valid() && Repr == old(Repr)
      ensures Model() == old(Model())
      ensures Settings() == Config(WithScheme(old(origin), sslOn), pub, sub, secret, cipher, old(callbackSet))
    {
      publishKey := pub;
      subscribeKey := sub;
      secretKey := secret;
      cipherKey := cipher;
      ssl := sslOn;
      if ssl {
        origin := Lit("https://") + origin;
      } else {
        origin := Lit("http://") + origin;
      }
    }

    method SetCallback(installed: bool)
      requires Valid()
      modifies this
      ensures Valid() && Repr == old(Repr)
      ensures Model() == old(Model())
      ensures Settings() == old(Settings()).(callbackSet := installed)
    {
      callbackSet := installed;
    }

    // -------------------------------------------------------------------
    // Requests

    /** _request: record the timetoken of a subscribe, build the URL and
        queue the request. */
    method Request(segs: seq<Text>, ch: Text)
      requires Valid() && WellFormed(segs)
      modifies this
      ensures Valid() && Repr == old(Repr) && Settings() == old(Settings())
      ensures Model() == RequestSpec(Settings(), old(Model()), segs, ch)
    {
      var requestFor := segs[0];
      if requestFor == Lit("subscribe") {
        currentTimetoken := segs[4];
      }
      var url := GetUrl(origin, segs);
      trace := trace + [Sent(segs, ch, url)];
    }

    /** The "Stop Connection?" scan: is some entry of the channel switched
        off? */
    method FindHalted(ch: Text) returns (halted: bool)
      ensures halted <==> Halted(EntriesOf(subscriptions), ch)
    {
      halted := false;
      var i := 0;
      while i < |subscriptions|
        invariant 0 <= i <= |subscriptions|
        invariant forall j :: 0 <= j < i ==> !(subscriptions[j].channel == ch && !subscriptions[j].connected)
      {
        var it := subscriptions[i];
        if it.channel == ch && !it.connected {
          halted := true;
          break;
        }
        i := i + 1;
      }
    }

    /** _subscribe_base. */
    method SubscribeBase(ch: Text, tt: Text)
      requires Valid()
      modifies this
      ensures Valid() && Repr == old(Repr) && Settings() == old(Settings())
      ensures Model() == SubscribeBaseSpec(Settings(), old(Model()), ch, tt)
    {
      if !vectorCreated {
        return;
      }
      var halted := FindHalted(ch);
      if halted {
        if callbackSet {
          trace := trace + [DisconnectEvent(ch)];
        }
        return;
      }
      Request(SubscribeSegments(subscribeKey, ch, tt), ch);
    }

    /** The "Ensure Single Connection" scan of _subscribe. */
    method ChannelExists(ch: Text) returns (channelExists: bool)
      ensures channelExists <==> Tracked(EntriesOf(subscriptions), ch)
    {
      channelExists := false;
      var i := 0;
      while i < |subscriptions|
        invariant 0 <= i <= |subscriptions|
        invariant forall j :: 0 <= j < i ==> subscriptions[j].channel != ch
      {
        var it := subscriptions[i];
        if it.channel == ch {
          channelExists := true;
          assert EntriesOf(subscriptions)[i].channel == ch;
          break;
        }
        i := i + 1;
      }
    }

    /** addElement of a new record for the channel. */
    method AddChannel(ch: Text)
      requires Valid()
      modifies this
      ensures Valid() && fresh(Repr - old(Repr)) && Settings() == old(Settings())
      ensures vectorCreated
      ensures EntriesOf(subscriptions) == old(EntriesOf(subscriptions)) + [Entry(ch, true, false)]
      ensures currentTimetoken == old(currentTimetoken) && trace == old(trace)
    {
      var cs := new ChannelStatus(ch);
      subscriptions := subscriptions + [cs];
      vectorCreated := true;
      Repr := Repr + {cs};
    }

    /** _subscribe. */
    method SubscribeInner(ch: Text, tt: Text)
      requires Valid()
      modifies this
      ensures Valid() && fresh(Repr - old(Repr)) && Settings() == old(Settings())
      ensures Model() == SubscribeInnerSpec(Settings(), old(Model()), ch, tt)
    {
      ghost var st := Model();
      if vectorCreated && |subscriptions| > 0 {
        var channelExists := ChannelExists(ch);
        if !channelExists {
          AddChannel(ch);
        } else if callbackSet {
          trace := trace + [ErrorEvent(ch, AlreadyConnected())];
        }
      } else {
        subscriptions := [];
        AddChannel(ch);
      }
      ghost var (reg, present) := Subscribed(st.registry, ch);
      assert Model() == State(Some(reg), st.currentTimetoken,
                              st.trace + (if present then Notify(Settings(), ErrorEvent(ch, AlreadyConnected())) else []));
      SubscribeBase(ch, tt);
    }

    /** subscribe: from timetoken "0". */
    method Subscribe(ch: Text)
      requires Valid()
      modifies this
      ensures Valid() && fresh(Repr - old(Repr)) && Settings() == old(Settings())
      ensures Model() == SubscribeSpec(Settings(), old(Model()), ch)
    {
      SubscribeInner(ch, Lit("0"));
    }

    /** `it.connected = false; it.first = false;` on record i. */
    method SwitchOff(i: nat)
      requires Valid() && i < |subscriptions|
      modifies subscriptions[i]
      ensures EntriesOf(subscriptions) == old(EntriesOf(subscriptions))[i := old(EntriesOf(subscriptions))[i].(connected := false, first := false)]
    {
      var it := subscriptions[i];
      it.connected := false;
      it.first := false;
    }

    /** unsubscribe; `thrown` when the vector does not exist yet. */
    method Unsubscribe(ch: Text) returns (thrown: bool)
      requires Valid()
      modifies Repr
      ensures Valid()
      ensures thrown <==> UnsubscribeSpec(old(Model()), ch).None?
      ensures !thrown ==> Model() == UnsubscribeSpec(old(Model()), ch).value
      ensures thrown ==> Model() == old(Model())
    {
      if !vectorCreated {
        return true;
      }
      thrown := false;
      ghost var reg := EntriesOf(subscriptions);
      var i := 0;
      while i < |subscriptions|
        invariant 0 <= i <= |subscriptions|
        invariant forall j :: 0 <= j < i ==> !(reg[j].channel == ch && reg[j].connected)
      {
        var it := subscriptions[i];
        if it.channel == ch && it.connected {
          assert FirstLive(reg, ch, i);
          FirstLiveUnique(reg, ch, i);
          assert HasLive(reg, ch);
          assert Unsubscribed(reg, ch) == reg[i := Entry(ch, false, false)];
          SwitchOff(i);
          return;
        }
        i := i + 1;
      }
    }

    method Publish(env: Env, ch: Text, m: Message) returns (thrown: bool)
      requires Valid()
      modifies this
      ensures Valid() && Repr == old(Repr) && Settings() == old(Settings())
      ensures thrown <==> PublishSpec(Settings(), env, old(Model()), ch, m).None?
      ensures !thrown ==> Model() == PublishSpec(Settings(), env, old(Model()), ch, m).value
      ensures thrown ==> Model() == old(Model())
    {
      var text: Text;
      match m {
        case ObjectMessage(obj) =>
          var message := obj;
          if |cipherKey| > 0 {
            message := env.encryptObject(obj);
          }
          text := env.render(message);
        case StringMessage(obj) =>
          var message := obj;
          if |cipherKey| > 0 {
            var encrypted := env.encryptString(obj);
            if encrypted.Some? {
              message := encrypted.value;
            }
          }
          text := [Quote] + message + [Quote];
        case ArrayMessage(obj) =>
          var message := obj;
          if |cipherKey| > 0 {
            message := env.encryptArray(obj);
          }
          text := env.render(message);
        case OtherMessage(shown) =>
          text := shown;
        case NullMessage =>
          return true;
      }
      assert MessageText(env, CipherOn(Settings()), m) == Some(text);
      thrown := false;
      var signature := Lit("0");
      if |secretKey| > 0 {
        signature := env.hmac(secretKey, StringToSign(publishKey, subscribeKey, secretKey, ch, text));
      }
      assert signature == Signature(env, publishKey, subscribeKey, secretKey, ch, text);
      Request(PublishSegments(publishKey, subscribeKey, signature, ch, text), ch);
    }

    method History(ch: Text, limit: int)
      requires Valid()
      modifies this
      ensures Valid() && Repr == old(Repr) && Settings() == old(Settings())
      ensures Model() == HistorySpec(Settings(), old(Model()), ch, limit)
    {
      Request(HistorySegments(subscribeKey, ch, limit), ch);
    }

    // -------------------------------------------------------------------
    // OnComplet

    /** `it.first = true` on record i. */
    method MarkFirst(i: nat)
      requires Valid() && i < |subscriptions|
      modifies subscriptions[i]
      ensures EntriesOf(subscriptions) == old(EntriesOf(subscriptions))[i := old(EntriesOf(subscriptions))[i].(first := true)]
    {
      var it := subscriptions[i];
      it.first := true;
    }

    /** The connect scan of a healthy response: the first record of the
        channel not yet welcomed is marked and connectCallback fires. */
    method Welcome(ch: Text)
      requires Valid() && vectorCreated && callbackSet
      modifies this, Repr
      ensures Valid() && Repr == old(Repr) && Settings() == old(Settings())
      ensures var (reg1, fired) := Welcomed(old(EntriesOf(subscriptions)), ch);
        Model() == old(Model()).(registry := Some(reg1), trace := old(trace) + (if fired then [ConnectEvent(ch)] else []))
    {
      ghost var reg := EntriesOf(subscriptions);
      var i := 0;
      while i < |subscriptions|
        invariant 0 <= i <= |subscriptions|
        invariant forall j :: 0 <= j < i ==> !(reg[j].channel == ch && !reg[j].first)
      {
        var it := subscriptions[i];
        if it.channel == ch && !it.first {
          assert FirstUnwelcomed(reg, ch, i);
          FirstUnwelcomedUnique(reg, ch, i);
          assert HasUnwelcomed(reg, ch);
          MarkFirst(i);
          if callbackSet {
            trace := trace + [ConnectEvent(ch)];
          }
          return;
        }
        i := i + 1;
      }
    }

    /** removeElement of record i, which the vector holds once, followed
        by the disconnect callback for its channel. */
    method DropAt(i: nat, ch: Text)
      requires Valid() && i < |subscriptions| && callbackSet
      modifies this
      ensures Valid() && Repr == old(Repr) && Settings() == old(Settings())
      ensures vectorCreated == old(vectorCreated) && currentTimetoken == old(currentTimetoken)
      ensures trace == old(trace) + [DisconnectEvent(ch)]
      ensures EntriesOf(subscriptions) == old(EntriesOf(subscriptions))[..i] + old(EntriesOf(subscriptions))[i + 1..]
    {
      subscriptions := subscriptions[..i] + subscriptions[i + 1..];
      trace := trace + [DisconnectEvent(ch)];
    }

    /** One turn of the removal loop at index i: the record is removed, with
        its disconnect callback, exactly when it belongs to the channel. */
    method SweepOne(ch: Text, i: nat) returns (removed: bool)
      requires Valid() && callbackSet && i < |subscriptions|
      modifies this
      ensures Valid() && Repr == old(Repr) && Settings() == old(Settings())
      ensures vectorCreated == old(vectorCreated) && currentTimetoken == old(currentTimetoken)
      ensures removed <==> old(EntriesOf(subscriptions))[i].channel == ch
      ensures removed ==> trace == old(trace) + [DisconnectEvent(ch)]
      ensures removed ==> EntriesOf(subscriptions) == old(EntriesOf(subscriptions))[..i] + old(EntriesOf(subscriptions))[i + 1..]
      ensures !removed ==> trace == old(trace) && EntriesOf(subscriptions) == old(EntriesOf(subscriptions))
      ensures var before := SweepFrom(old(EntriesOf(subscriptions)), ch, i);
        var after := SweepFrom(EntriesOf(subscriptions), ch, i + 1);
        before == (after.0, after.1 + if removed then 1 else 0)
    {
      ghost var cur := EntriesOf(subscriptions);
      var it := subscriptions[i];
      removed := it.channel == ch;
      if removed {
        assert cur[i].channel == ch;
        SweepDropsAt(cur, ch, i);
        DropAt(i, ch);
      } else {
        assert cur[i].channel != ch;
        SweepSkips(cur, ch, i);
      }
    }

    /** The removal loop of the drop path: removeElement on every record of
        the channel, with a disconnect callback each, while the index moves
        on past the record that slid into the removed one's place. */
    method SweepChannel(ch: Text) returns (n: nat)
      requires Valid() && callbackSet
      modifies this
      ensures Valid() && Repr == old(Repr) && Settings() == old(Settings())
      ensures vectorCreated == old(vectorCreated) && currentTimetoken == old(currentTimetoken)
      ensures (EntriesOf(subscriptions), n) == Sweep(old(EntriesOf(subscriptions)), ch)
      ensures trace == old(trace) + Repeat(DisconnectEvent(ch), n)
    {
      ghost var goal := Sweep(EntriesOf(subscriptions), ch);
      n := 0;
      var i := 0;
      while i < |subscriptions|
        invariant Valid() && Repr == old(Repr) && Settings() == old(Settings())
        invariant vectorCreated == old(vectorCreated) && currentTimetoken == old(currentTimetoken)
        invariant goal.0 == SweepFrom(EntriesOf(subscriptions), ch, i).0
        invariant goal.1 == n + SweepFrom(EntriesOf(subscriptions), ch, i).1
        invariant trace == old(trace) + Repeat(DisconnectEvent(ch), n)
        decreases |subscriptions| - i
      {
        var removed := SweepOne(ch, i);
        if removed {
          RepeatOneMore(DisconnectEvent(ch), n);
          n := n + 1;
        }
        i := i + 1;
      }
    }

    /** The body of the message loop for message i, up to the callback:
        an object or an array is decrypted when a cipher key is set; for
        anything else getString(0) is decrypted. None when decryption
        throws. */
    method Unpack(env: Env, messages: seq<Json>, i: nat) returns (p: Option<Json>)
      requires i < |messages|
      ensures p == Payload(env, CipherOn(Settings()), messages, i)
    {
      var message := messages[i];
      if message.JObject? {
        if |cipherKey| > 0 {
          p := env.decryptObject(message);
        } else {
          p := Some(message);
        }
      } else if message.JArray? {
        var arr := message;
        if |cipherKey| > 0 {
          var decrypted := env.decryptArray(arr);
          if !decrypted.Plain? {
            return None;
          }
          arr := decrypted.value;
        }
        p := Some(arr);
      } else {
        var msgs := ToText(env, messages[0]);
        if |cipherKey| > 0 {
          var decrypted := env.decryptString(msgs);
          if decrypted.None? {
            return None;
          }
          msgs := decrypted.value;
        }
        p := Some(JString(msgs));
      }
    }

    /** One callback fired: the event joins the trace and nothing else
        changes. */
    method Fire(e: Event)
      requires Valid()
      modifies this
      ensures Valid() && Repr == old(Repr) && Settings() == old(Settings())
      ensures Model() == old(Model()).(trace := old(trace) + [e])
    {
      trace := trace + [e];
    }

    /** One turn of the message loop: message i is unpacked and, unless that
        throws, handed to subscribeCallback; `evs` are the events fired so
        far. */
    method DispatchOne(env: Env, ch: Text, messages: seq<Json>, i: nat, ghost evs: seq<Event>) returns (p: Option<Json>)
      requires Valid() && callbackSet && i < |messages|
      requires DispatchFrom(env, CipherOn(Settings()), ch, messages, 0).0 == evs + DispatchFrom(env, CipherOn(Settings()), ch, messages, i).0
      requires DispatchFrom(env, CipherOn(Settings()), ch, messages, 0).1 == DispatchFrom(env, CipherOn(Settings()), ch, messages, i).1
      modifies this
      ensures Valid() && Repr == old(Repr) && Settings() == old(Settings())
      ensures p.None? ==> Model() == old(Model()) && DispatchFrom(env, CipherOn(Settings()), ch, messages, i) == ([], false)
      ensures p.Some? ==> Model() == old(Model()).(trace := old(trace) + [MessageEvent(ch, p.value)])
      ensures p.Some? ==> DispatchFrom(env, CipherOn(Settings()), ch, messages, 0).0 == (evs + [MessageEvent(ch, p.value)]) + DispatchFrom(env, CipherOn(Settings()), ch, messages, i + 1).0
      ensures p.Some? ==> DispatchFrom(env, CipherOn(Settings()), ch, messages, 0).1 == DispatchFrom(env, CipherOn(Settings()), ch, messages, i + 1).1
    {
      p := Unpack(env, messages, i);
      if p.None? {
        assert DispatchFrom(env, CipherOn(Settings()), ch, messages, i) == ([], false);
        return;
      }
      DispatchAdvance(env, CipherOn(Settings()), ch, messages, i, evs, p.value);
      Fire(MessageEvent(ch, p.value));
    }

    /** The message loop: one subscribeCallback per message, in order,
        until a decryption throws (`ok` false). */
    method Dispatch(env: Env, ch: Text, messages: seq<Json>) returns (ok: bool)
      requires Valid() && callbackSet
      modifies this
      ensures Valid() && Repr == old(Repr) && Settings() == old(Settings())
      ensures Model() == old(Model()).(trace := old(trace) + DispatchFrom(env, CipherOn(Settings()), ch, messages, 0).0)
      ensures ok == DispatchFrom(env, CipherOn(Settings()), ch, messages, 0).1
    {
      ghost var cipherOn := CipherOn(Settings());
      ghost var evs: seq<Event> := [];
      var i := 0;
      while i < |messages|
        invariant 0 <= i <= |messages|
        invariant Valid() && Repr == old(Repr) && Settings() == old(Settings())
        invariant Model() == old(Model()).(trace := old(trace) + evs)
        invariant DispatchFrom(env, cipherOn, ch, messages, 0).0 == evs + DispatchFrom(env, cipherOn, ch, messages, i).0
        invariant DispatchFrom(env, cipherOn, ch, messages, 0).1 == DispatchFrom(env, cipherOn, ch, messages, i).1
        decreases |messages| - i
      {
        var p := DispatchOne(env, ch, messages, i, evs);
        if p.None? {
          return false;
        }
        evs := evs + [MessageEvent(ch, p.value)];
        i := i + 1;
      }
      assert DispatchFrom(env, cipherOn, ch, messages, i) == ([], true);
      return true;
    }

    /** The tail of the subscribe branch: the messages of element 0, then
        the next poll from the timetoken of element 1. */
    method Deliver(env: Env, ch: Text, items: seq<Json>)
      requires Valid() && callbackSet
      modifies this
      ensures Valid() && Repr == old(Repr) && Settings() == old(Settings())
      ensures Model() == DeliverSpec(Settings(), env, old(Model()), ch, items)
    {
      if |items| == 0 || !items[0].JArray? {
        return;
      }
      var messages := items[0].items;
      var timetoken := Lit("0");
      var cursor := if |items| > 1 then ToText(env, items[1]) else [];
      if |cursor| > 0 {
        timetoken := cursor;
      }
      var ok := Dispatch(env, ch, messages);
      if ok {
        SubscribeBase(ch, timetoken);
      }
    }

    /** The reconnect loop: time() is called until it answers, with one
        reconnectCallback per call that answers 0. */
    method Probe(ch: Text, probes: seq<TimeResult>) returns (k: nat)
      requires Valid() && callbackSet
      modifies this
      ensures Valid() && Repr == old(Repr) && Settings() == old(Settings())
      ensures k == Misses(probes)
      ensures Model() == old(Model()).(trace := old(trace) + Repeat(ReconnectEvent(ch), k))
    {
      k := 0;
      while k < |probes| && probes[k] == TimeZero
        invariant 0 <= k <= |probes|
        invariant Valid() && Repr == old(Repr) && Settings() == old(Settings())
        invariant forall j :: 0 <= j < k ==> probes[j] == TimeZero
        invariant Model() == old(Model()).(trace := old(trace) + Repeat(ReconnectEvent(ch), k))
      {
        if callbackSet {
          RepeatOneMore(ReconnectEvent(ch), k);
          trace := trace + [ReconnectEvent(ch)];
        }
        k := k + 1;
      }
      if k < |probes| {
        MissesExactly(probes, k);
      }
    }

    /** The drop path: sweep, call time() until it answers, subscribe
        again and go on to the messages. */
    method Drop(env: Env, ch: Text, resp: Response, probes: seq<TimeResult>)
      requires Valid() && vectorCreated && callbackSet && !resp.Unparsable?
      modifies this
      ensures Valid() && fresh(Repr - old(Repr)) && Settings() == old(Settings())
      ensures Model() == DropSpec(Settings(), env, old(Model()), old(EntriesOf(subscriptions)), ch, resp, probes)
    {
      ghost var st := Model();
      ghost var reg := EntriesOf(subscriptions);
      var n := SweepChannel(ch);
      var k := Probe(ch, probes);
      assert Model() == State(Some(Sweep(reg, ch).0), st.currentTimetoken,
                              st.trace + Repeat(DisconnectEvent(ch), n) + Repeat(ReconnectEvent(ch), k));
      if k < |probes| {
        var resume := if currentTimetoken == Lit("0") then probes[k].shown else currentTimetoken;
        SubscribeInner(ch, resume);
        if resp.Body? {
          Deliver(env, ch, resp.items);
        }
      }
    }

    /** A healthy response: connectCallback once for the channel, then the
        messages and the next poll. */
    method Accept(env: Env, ch: Text, items: seq<Json>)
      requires Valid() && vectorCreated && callbackSet
      modifies this, Repr
      ensures Valid() && Repr == old(Repr) && Settings() == old(Settings())
      ensures var (reg1, fired) := Welcomed(old(EntriesOf(subscriptions)), ch);
        Model() == DeliverSpec(Settings(), env,
          old(Model()).(registry := Some(reg1), trace := old(trace) + (if fired then [ConnectEvent(ch)] else [])), ch, items)
    {
      Welcome(ch);
      Deliver(env, ch, items);
    }

    /** The subscribe branch of OnComplet. */
    method SubscribeReply(env: Env, ch: Text, resp: Response, probes: seq<TimeResult>)
      requires Valid() && callbackSet && !resp.Unparsable?
      modifies this, Repr
      ensures Valid() && fresh(Repr - old(Repr)) && Settings() == old(Settings())
      ensures Model() == SubscribeResponse(Settings(), env, old(Model()), ch, resp, probes)
    {
      if !vectorCreated {
        return;
      }
      var isDisconnect := FindHalted(ch);
      if isDisconnect {
        trace := trace + [DisconnectEvent(ch)];
        return;
      }
      if resp.NoBody? || |resp.items| < 2 || env.optIntIsZero(resp.items[1]) {
        Drop(env, ch, resp, probes);
      } else {
        Accept(env, ch, resp.items);
      }
    }

    /** The history branch of OnComplet. */
    method HistoryReply(env: Env, ch: Text, resp: Response)
      requires Valid() && !resp.Unparsable?
      modifies this
      ensures Valid() && Repr == old(Repr) && Settings() == old(Settings())
      ensures Model() == HistoryResponse(Settings(), env, old(Model()), ch, resp)
    {
      var out := if resp.Body? then Some(JArray(resp.items)) else None;
      if |cipherKey| > 0 {
        var decrypted := if out.Some? then env.decryptArray(out.value) else env.decryptNull;
        match decrypted {
          case Plain(v) => out := Some(v);
          case IoFailed =>
          case Aborted => return;
        }
      }
      trace := trace + [HistoryEvent(ch, out)];
    }

    /** OnComplet: the handler of every response, dispatching on the kind
        of request. `probes` are the answers of the successive time() calls
        the drop path makes. */
    method OnComplete(env: Env, reqFor: Text, ch: Text, resp: Response, probes: seq<TimeResult>)
      requires Valid()
      modifies this, Repr
      ensures Valid() && fresh(Repr - old(Repr)) && Settings() == old(Settings())
      ensures Model() == OnCompleteSpec(Settings(), env, old(Model()), reqFor, ch, resp, probes)
    {
      if resp.Unparsable? || !callbackSet {
        return;
      }
      KindsDiffer();
      if reqFor == Lit("time") {
      } else if reqFor == Lit("history") {
        HistoryReply(env, ch, resp);
      } else if reqFor == Lit("publish") {
        var out := if resp.Body? then JArray(resp.items) else PublishFailed();
        trace := trace + [PublishEvent(ch, out)];
      } else if reqFor == Lit("subscribe") {
        SubscribeReply(env, ch, resp, probes);
      }
    }
  }
}
