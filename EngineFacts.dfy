/** What the J2ME client's steps guarantee, proved about the step functions
    of Engine. */
module EngineFacts {
  import opened Wrappers
  import opened Texts
  import opened JsonValues
  import opened Oracles
  import opened Requests
  import opened Registry
  import opened Engine

  /** The invariant the client keeps: at most one entry per channel name. */
  predicate Consistent(st: State)
  {
    st.registry.Some? ==> NoDuplicates(st.registry.value)
  }

  function PollOf(cfg: Config, ch: Text, tt: Text): Event
  {
    Sent(SubscribeSegments(cfg.subscribeKey, ch, tt), ch, Url(cfg.origin, SubscribeSegments(cfg.subscribeKey, ch, tt)))
  }

  // ---------------------------------------------------------------------
  // subscribe

  /** Subscribing to a channel not yet tracked appends one connected,
      not-yet-welcomed entry and polls from timetoken "0". */
  lemma SubscribeNewChannel(cfg: Config, st: State, ch: Text)
    requires st.registry.Some? ==> !Tracked(st.registry.value, ch)
    ensures var r := SubscribeSpec(cfg, st, ch);
      r.registry == Some((if st.registry.Some? then st.registry.value else []) + [Entry(ch, true, false)]) &&
      r.currentTimetoken == Lit("0") &&
      r.trace == st.trace + [PollOf(cfg, ch, Lit("0"))]
  {
    var before := if st.registry.Some? then st.registry.value else [];
    var reg := before + [Entry(ch, true, false)];
    forall i | 0 <= i < |before| ensures reg[i].channel != ch {
      assert reg[i] == before[i];
    }
    assert !Halted(reg, ch);
    var st1 := State(Some(reg), st.currentTimetoken, st.trace + []);
    assert st.trace + [] == st.trace;
    assert SubscribeSpec(cfg, st, ch) == SubscribeBaseSpec(cfg, st1, ch, Lit("0"));
    KindsDiffer();
  }

  /** Subscribing to a tracked channel fires exactly one "Already
      Connected." error and leaves the registry alone; the return after it
      is commented out, so the client polls again unless the channel is
      halted, in which case it reports the disconnect instead. */
  lemma SubscribeTrackedChannel(cfg: Config, st: State, ch: Text)
    requires cfg.callbackSet && st.registry.Some? && Tracked(st.registry.value, ch)
    ensures var r := SubscribeSpec(cfg, st, ch);
      var err := ErrorEvent(ch, AlreadyConnected());
      r.registry == st.registry &&
      (!Halted(st.registry.value, ch) ==>
         r.trace == st.trace + [err, PollOf(cfg, ch, Lit("0"))] && r.currentTimetoken == Lit("0")) &&
      (Halted(st.registry.value, ch) ==>
         r.trace == st.trace + [err, DisconnectEvent(ch)] && r.currentTimetoken == st.currentTimetoken)
  {
    KindsDiffer();
    var reg := st.registry.value;
    var err := ErrorEvent(ch, AlreadyConnected());
    var st1 := State(Some(reg), st.currentTimetoken, st.trace + [err]);
    assert SubscribeSpec(cfg, st, ch) == SubscribeBaseSpec(cfg, st1, ch, Lit("0"));
    if Halted(reg, ch) {
      TwoEvents(st.trace, err, DisconnectEvent(ch));
    } else {
      TwoEvents(st.trace, err, PollOf(cfg, ch, Lit("0")));
    }
  }

  lemma TwoEvents(t: seq<Event>, a: Event, b: Event)
    ensures (t + [a]) + [b] == t + [a, b]
  {
  }

  // ---------------------------------------------------------------------
  // unsubscribe, and what a halted channel does next

  /** Once unsubscribe has switched a channel off, both the next poll and
      the next subscribe response only report the disconnect: one callback,
      no request, no other change. */
  lemma UnsubscribedChannelStops(cfg: Config, env: Env, st: State, ch: Text, tt: Text, resp: Response, probes: seq<TimeResult>)
    requires cfg.callbackSet && !resp.Unparsable?
    requires st.registry.Some? && HasLive(st.registry.value, ch)
    ensures UnsubscribeSpec(st, ch).Some?
    ensures var u := UnsubscribeSpec(st, ch).value;
      u.trace == st.trace && u.currentTimetoken == st.currentTimetoken &&
      SubscribeBaseSpec(cfg, u, ch, tt) == u.(trace := st.trace + [DisconnectEvent(ch)]) &&
      OnCompleteSpec(cfg, env, u, Lit("subscribe"), ch, resp, probes) == u.(trace := st.trace + [DisconnectEvent(ch)])
  {
    UnsubscribeHalts(st.registry.value, ch);
    KindsDiffer();
  }

  /** The disconnect check of a subscribe response: a halted channel gets
      one disconnect callback and nothing else happens. */
  lemma HaltedResponse(cfg: Config, env: Env, st: State, ch: Text, resp: Response, probes: seq<TimeResult>)
    requires cfg.callbackSet && !resp.Unparsable?
    requires st.registry.Some? && Halted(st.registry.value, ch)
    ensures OnCompleteSpec(cfg, env, st, Lit("subscribe"), ch, resp, probes) == st.(trace := st.trace + [DisconnectEvent(ch)])
  {
    KindsDiffer();
  }

  // ---------------------------------------------------------------------
  // Message dispatch

  predicate AllDecrypt(env: Env, cipherOn: bool, msgs: seq<Json>)
  {
    forall i :: 0 <= i < |msgs| ==> Payload(env, cipherOn, msgs, i).Some?
  }

  /** One event per message, in index order. */
  function MessageEvents(env: Env, cipherOn: bool, ch: Text, msgs: seq<Json>, i: nat): (evs: seq<Event>)
    requires i <= |msgs| && AllDecrypt(env, cipherOn, msgs)
    ensures |evs| == |msgs| - i
    ensures forall j :: 0 <= j < |evs| ==> evs[j] == MessageEvent(ch, Payload(env, cipherOn, msgs, i + j).value)
  {
    seq(|msgs| - i, j requires 0 <= j < |msgs| - i => MessageEvent(ch, Payload(env, cipherOn, msgs, i + j).value))
  }

  /** A sequence is its head followed by its shifted tail. */
  lemma SplitHead<T>(s: seq<T>, rest: seq<T>)
    requires |s| == |rest| + 1
    requires forall j :: 0 <= j < |rest| ==> s[j + 1] == rest[j]
    ensures s == [s[0]] + rest
  {
  }

  /** When nothing throws, the loop calls subscribeCallback once per message,
      in index order. */
  lemma {:induction false} DispatchInOrder(env: Env, cipherOn: bool, ch: Text, msgs: seq<Json>, i: nat)
    requires i <= |msgs| && AllDecrypt(env, cipherOn, msgs)
    ensures DispatchFrom(env, cipherOn, ch, msgs, i) == (MessageEvents(env, cipherOn, ch, msgs, i), true)
    decreases |msgs| - i
  {
    if i < |msgs| {
      DispatchInOrder(env, cipherOn, ch, msgs, i + 1);
      var evs := MessageEvents(env, cipherOn, ch, msgs, i);
      var rest := MessageEvents(env, cipherOn, ch, msgs, i + 1);
      forall j | 0 <= j < |rest|
        ensures evs[j + 1] == rest[j]
      {
        assert i + (j + 1) == (i + 1) + j;
      }
      SplitHead(evs, rest);
    }
  }

  /** A decryption that throws at message j ends the handler: the messages
      before j have been delivered, none after, and no further poll is
      issued. */
  lemma {:induction false} DispatchStopsAtThrow(env: Env, cipherOn: bool, ch: Text, msgs: seq<Json>, i: nat, j: nat)
    requires i <= j < |msgs|
    requires forall k :: i <= k < j ==> Payload(env, cipherOn, msgs, k).Some?
    requires Payload(env, cipherOn, msgs, j).None?
    ensures var (evs, ok) := DispatchFrom(env, cipherOn, ch, msgs, i);
      !ok && |evs| == j - i &&
      forall k :: 0 <= k < j - i ==> evs[k] == MessageEvent(ch, Payload(env, cipherOn, msgs, i + k).value)
    decreases j - i
  {
    if i < j {
      DispatchStopsAtThrow(env, cipherOn, ch, msgs, i + 1, j);
    }
  }

  /** Without a cipher key, every message that is neither an object nor an
      array is delivered as element 0 of the batch, read as a string. */
  lemma PlainTextMessagesRepeatFirst(env: Env, ch: Text, msgs: seq<Json>)
    requires forall i :: 0 <= i < |msgs| ==> !msgs[i].JObject? && !msgs[i].JArray?
    ensures AllDecrypt(env, false, msgs)
    ensures var (evs, ok) := DispatchFrom(env, false, ch, msgs, 0);
      ok && |evs| == |msgs| &&
      forall i :: 0 <= i < |msgs| ==> evs[i] == MessageEvent(ch, JString(ToText(env, msgs[0])))
  {
    DispatchInOrder(env, false, ch, msgs, 0);
  }

  // ---------------------------------------------------------------------
  // A healthy response

  predicate Healthy(env: Env, cipherOn: bool, items: seq<Json>)
  {
    !Dropped(env, Body(items)) && items[0].JArray? && AllDecrypt(env, cipherOn, items[0].items)
  }

  lemma WelcomedKeepsHalted(reg: Table, ch: Text, c: Text)
    ensures Halted(Welcomed(reg, ch).0, c) <==> Halted(reg, c)
    ensures SameChannels(Welcomed(reg, ch).0, reg)
  {
    var (r, fired) := Welcomed(reg, ch);
    if fired {
      var k :| FirstUnwelcomed(reg, ch, k) && r == reg[k := reg[k].(first := true)];
      assert forall i :: 0 <= i < |r| ==> r[i].channel == reg[i].channel && r[i].connected == reg[i].connected;
    }
  }

  /** A healthy response: the connect callback if the channel was not yet
      welcomed, one message callback per message in order, then the next
      poll from element 1 (or "0"), which becomes the current timetoken. */
  lemma HealthyResponse(cfg: Config, env: Env, st: State, ch: Text, items: seq<Json>, probes: seq<TimeResult>)
    requires cfg.callbackSet && st.registry.Some? && !Halted(st.registry.value, ch)
    requires Healthy(env, CipherOn(cfg), items)
    ensures var r := OnCompleteSpec(cfg, env, st, Lit("subscribe"), ch, Body(items), probes);
      var (reg1, fired) := Welcomed(st.registry.value, ch);
      var next := NextTimetoken(env, items);
      r.registry == Some(reg1) &&
      r.currentTimetoken == next &&
      r.trace == st.trace + (if fired then [ConnectEvent(ch)] else [])
                 + MessageEvents(env, CipherOn(cfg), ch, items[0].items, 0)
                 + [PollOf(cfg, ch, next)]
  {
    KindsDiffer();
    WelcomedKeepsHalted(st.registry.value, ch, ch);
    DispatchInOrder(env, CipherOn(cfg), ch, items[0].items, 0);
  }

  // ---------------------------------------------------------------------
  // Connect fires at most once

  /** Every event appended after st is not a connect callback. */
  predicate NoConnectAfter(st: State, r: State)
  {
    |st.trace| <= |r.trace| && r.trace[..|st.trace|] == st.trace &&
    forall i :: |st.trace| <= i < |r.trace| ==> !r.trace[i].ConnectEvent?
  }

  lemma NoConnectTrans(a: State, b: State, c: State)
    requires NoConnectAfter(a, b) && NoConnectAfter(b, c)
    ensures NoConnectAfter(a, c)
  {
    assert c.trace[..|a.trace|] == c.trace[..|b.trace|][..|a.trace|];
  }

  lemma NoConnectAppend(st: State, r: State, d: seq<Event>)
    requires r.trace == st.trace + d
    requires forall e :: e in d ==> !e.ConnectEvent?
    ensures NoConnectAfter(st, r)
  {
    forall i | |st.trace| <= i < |r.trace| ensures !r.trace[i].ConnectEvent? {
      assert r.trace[i] == d[i - |st.trace|];
    }
    assert r.trace[..|st.trace|] == st.trace;
  }

  lemma SubscribeInnerNoConnect(cfg: Config, st: State, ch: Text, tt: Text)
    ensures NoConnectAfter(st, SubscribeInnerSpec(cfg, st, ch, tt))
  {
    var (reg, present) := Subscribed(st.registry, ch);
    var errors := if present then Notify(cfg, ErrorEvent(ch, AlreadyConnected())) else [];
    var st1 := State(Some(reg), st.currentTimetoken, st.trace + errors);
    NoConnectAppend(st, st1, errors);
    SubscribeBaseNoConnect(cfg, st1, ch, tt);
    NoConnectTrans(st, st1, SubscribeInnerSpec(cfg, st, ch, tt));
  }

  lemma SubscribeBaseNoConnect(cfg: Config, st: State, ch: Text, tt: Text)
    ensures NoConnectAfter(st, SubscribeBaseSpec(cfg, st, ch, tt))
    ensures SubscribeBaseSpec(cfg, st, ch, tt).registry == st.registry
  {
    var r := SubscribeBaseSpec(cfg, st, ch, tt);
    if st.registry.Some? {
      if Halted(st.registry.value, ch) {
        NoConnectAppend(st, r, Notify(cfg, DisconnectEvent(ch)));
      } else {
        NoConnectAppend(st, r, [PollOf(cfg, ch, tt)]);
      }
    } else {
      NoConnectAppend(st, r, []);
    }
  }

  lemma {:induction false} DispatchNoConnect(env: Env, cipherOn: bool, ch: Text, msgs: seq<Json>, i: nat)
    ensures forall e :: e in DispatchFrom(env, cipherOn, ch, msgs, i).0 ==> e.MessageEvent?
    decreases |msgs| - i
  {
    if i < |msgs| {
      DispatchNoConnect(env, cipherOn, ch, msgs, i + 1);
    }
  }

  lemma DeliverNoConnect(cfg: Config, env: Env, st: State, ch: Text, items: seq<Json>)
    ensures NoConnectAfter(st, DeliverSpec(cfg, env, st, ch, items))
    ensures DeliverSpec(cfg, env, st, ch, items).registry == st.registry
  {
    if |items| == 0 || !items[0].JArray? {
      NoConnectAppend(st, st, []);
    } else {
      var (evs, ok) := DispatchFrom(env, CipherOn(cfg), ch, items[0].items, 0);
      DispatchNoConnect(env, CipherOn(cfg), ch, items[0].items, 0);
      var st1 := st.(trace := st.trace + evs);
      NoConnectAppend(st, st1, evs);
      if ok {
        SubscribeBaseNoConnect(cfg, st1, ch, NextTimetoken(env, items));
        NoConnectTrans(st, st1, DeliverSpec(cfg, env, st, ch, items));
      }
    }
  }

  lemma DropNoConnect(cfg: Config, env: Env, st: State, reg: Table, ch: Text, resp: Response, probes: seq<TimeResult>)
    requires !resp.Unparsable?
    ensures NoConnectAfter(st, DropSpec(cfg, env, st, reg, ch, resp, probes))
  {
    var (reg1, n) := Sweep(reg, ch);
    var k := Misses(probes);
    var d := Repeat(DisconnectEvent(ch), n) + Repeat(ReconnectEvent(ch), k);
    var st1 := State(Some(reg1), st.currentTimetoken, st.trace + d);
    assert st.trace + Repeat(DisconnectEvent(ch), n) + Repeat(ReconnectEvent(ch), k) == st.trace + d;
    NoConnectAppend(st, st1, d);
    if k < |probes| {
      var resume := if st.currentTimetoken == Lit("0") then probes[k].shown else st.currentTimetoken;
      var st2 := SubscribeInnerSpec(cfg, st1, ch, resume);
      SubscribeInnerNoConnect(cfg, st1, ch, resume);
      NoConnectTrans(st, st1, st2);
      if resp.Body? {
        DeliverNoConnect(cfg, env, st2, ch, resp.items);
        NoConnectTrans(st, st2, DeliverSpec(cfg, env, st2, ch, resp.items));
      }
    }
  }

  /** A subscribe response fires the connect callback only for a channel
      with an entry not yet welcomed, and a healthy one leaves every entry
      of the channel welcomed. */
  lemma ConnectNeedsUnwelcomed(cfg: Config, env: Env, st: State, ch: Text, resp: Response, probes: seq<TimeResult>)
    requires Consistent(st) && st.registry.Some? && !resp.Unparsable?
    requires !HasUnwelcomed(st.registry.value, ch)
    ensures NoConnectAfter(st, OnCompleteSpec(cfg, env, st, Lit("subscribe"), ch, resp, probes))
  {
    KindsDiffer();
    var r := OnCompleteSpec(cfg, env, st, Lit("subscribe"), ch, resp, probes);
    var reg := st.registry.value;
    if !cfg.callbackSet || resp.Unparsable? {
      NoConnectAppend(st, r, []);
    } else if Halted(reg, ch) {
      NoConnectAppend(st, r, [DisconnectEvent(ch)]);
    } else if Dropped(env, resp) {
      DropNoConnect(cfg, env, st, reg, ch, resp, probes);
    } else {
      var (reg1, fired) := Welcomed(reg, ch);
      assert !fired && reg1 == reg;
      var st1 := st.(registry := Some(reg1), trace := st.trace + []);
      assert st1 == st;
      DeliverNoConnect(cfg, env, st, ch, resp.items);
    }
  }

  /** Connect fires at most once: after a healthy response on a consistent
      registry, whatever the next subscribe response for the channel is, it
      fires no connect callback. */
  lemma ConnectAtMostOnce(cfg: Config, env: Env, st: State, ch: Text, items: seq<Json>, resp: Response, probes1: seq<TimeResult>, probes2: seq<TimeResult>)
    requires Consistent(st) && cfg.callbackSet && st.registry.Some? && !Halted(st.registry.value, ch)
    requires !Dropped(env, Body(items)) && !resp.Unparsable?
    ensures var st1 := OnCompleteSpec(cfg, env, st, Lit("subscribe"), ch, Body(items), probes1);
      NoConnectAfter(st1, OnCompleteSpec(cfg, env, st1, Lit("subscribe"), ch, resp, probes2))
  {
    KindsDiffer();
    var reg := st.registry.value;
    var (reg1, fired) := Welcomed(reg, ch);
    WelcomeOnce(reg, ch);
    var st0 := st.(registry := Some(reg1), trace := st.trace + (if fired then [ConnectEvent(ch)] else []));
    DeliverNoConnect(cfg, env, st0, ch, items);
    var st1 := OnCompleteSpec(cfg, env, st, Lit("subscribe"), ch, Body(items), probes1);
    assert st1.registry == Some(reg1);
    ConnectNeedsUnwelcomed(cfg, env, st1, ch, resp, probes2);
  }

  // ---------------------------------------------------------------------
  // A dropped response

  lemma NewEntryNotHalted(reg: Table, ch: Text)
    ensures !Halted(Without(reg, ch) + [Entry(ch, true, false)], ch)
    ensures Subscribed(Some(Without(reg, ch)), ch) == (Without(reg, ch) + [Entry(ch, true, false)], false)
  {
    var w := Without(reg, ch);
    var r := w + [Entry(ch, true, false)];
    assert !Tracked(w, ch);
    forall i | 0 <= i < |w| ensures r[i].channel != ch {
      assert r[i] == w[i];
    }
  }

  /** When nothing throws and the channel is not halted, the tail of the
      subscribe branch delivers every message in order and polls from the
      next timetoken, which becomes the current one. */
  lemma DeliverAll(cfg: Config, env: Env, s: State, ch: Text, items: seq<Json>)
    requires s.registry.Some? && !Halted(s.registry.value, ch)
    requires |items| > 0 && items[0].JArray? && AllDecrypt(env, CipherOn(cfg), items[0].items)
    ensures DeliverSpec(cfg, env, s, ch, items) ==
      State(s.registry, NextTimetoken(env, items),
            s.trace + MessageEvents(env, CipherOn(cfg), ch, items[0].items, 0) + [PollOf(cfg, ch, NextTimetoken(env, items))])
  {
    KindsDiffer();
    DispatchInOrder(env, CipherOn(cfg), ch, items[0].items, 0);
  }

  /** The state the drop path reaches once time() has answered at call k:
      the channel's entry replaced by a fresh one at the end, and one poll
      from the resume timetoken. */
  function Resumed(cfg: Config, st: State, ch: Text, probes: seq<TimeResult>, k: nat): State
    requires st.registry.Some? && k < |probes| && probes[k].TimeValue?
  {
    var reg := st.registry.value;
    var resume := if st.currentTimetoken == Lit("0") then probes[k].shown else st.currentTimetoken;
    State(Some(Without(reg, ch) + [Entry(ch, true, false)]), resume,
          st.trace + Repeat(DisconnectEvent(ch), if Tracked(reg, ch) then 1 else 0)
          + Repeat(ReconnectEvent(ch), k) + [PollOf(cfg, ch, resume)])
  }

  /** The resubscribe of the drop path, after the sweep and k failed
      time() calls, reaches Resumed. */
  lemma ResubscribeResumes(cfg: Config, st: State, ch: Text, probes: seq<TimeResult>, k: nat)
    requires Consistent(st) && st.registry.Some?
    requires k < |probes| && probes[k].TimeValue?
    ensures var reg := st.registry.value;
      var (reg1, n) := Sweep(reg, ch);
      var st1 := State(Some(reg1), st.currentTimetoken,
                       st.trace + Repeat(DisconnectEvent(ch), n) + Repeat(ReconnectEvent(ch), k));
      var resume := if st.currentTimetoken == Lit("0") then probes[k].shown else st.currentTimetoken;
      SubscribeInnerSpec(cfg, st1, ch, resume) == Resumed(cfg, st, ch, probes, k)
  {
    var reg := st.registry.value;
    var (reg1, n) := Sweep(reg, ch);
    SweepRemovesChannel(reg, ch);
    var st1 := State(Some(reg1), st.currentTimetoken,
                     st.trace + Repeat(DisconnectEvent(ch), n) + Repeat(ReconnectEvent(ch), k));
    var resume := if st.currentTimetoken == Lit("0") then probes[k].shown else st.currentTimetoken;
    NewEntryNotHalted(reg, ch);
    var added := reg1 + [Entry(ch, true, false)];
    var st2 := State(Some(added), st.currentTimetoken, st1.trace + []);
    assert SubscribeInnerSpec(cfg, st1, ch, resume) == SubscribeBaseSpec(cfg, st2, ch, resume);
    var segs := SubscribeSegments(cfg.subscribeKey, ch, resume);
    var r := RequestSpec(cfg, st2, segs, ch);
    assert SubscribeBaseSpec(cfg, st2, ch, resume) == r;
    var goal := Resumed(cfg, st, ch, probes, k);
    assert r.registry == goal.registry;
    assert r.currentTimetoken == goal.currentTimetoken;
    assert st1.trace + [] == st1.trace;
    assert r.trace == goal.trace;
  }

  lemma DropResumes(cfg: Config, env: Env, st: State, ch: Text, resp: Response, probes: seq<TimeResult>, k: nat)
    requires Consistent(st) && st.registry.Some? && !resp.Unparsable?
    requires k < |probes| && probes[k].TimeValue? && forall j :: 0 <= j < k ==> probes[j] == TimeZero
    ensures var s := Resumed(cfg, st, ch, probes, k);
      DropSpec(cfg, env, st, st.registry.value, ch, resp, probes) ==
        (if resp.NoBody? then s else DeliverSpec(cfg, env, s, ch, resp.items))
  {
    MissesExactly(probes, k);
    ResubscribeResumes(cfg, st, ch, probes, k);
  }

  /** A response with no body on a consistent registry: the channel's entry
      goes (one disconnect callback if it was tracked), one reconnect
      callback per failed time() call, then a fresh entry and one poll from
      the timetoken of the last poll, or from the server time when that was
      "0". The handler then ends. */
  lemma DropWithoutBody(cfg: Config, env: Env, st: State, ch: Text, probes: seq<TimeResult>, k: nat)
    requires Consistent(st) && cfg.callbackSet && st.registry.Some? && !Halted(st.registry.value, ch)
    requires k < |probes| && probes[k].TimeValue? && forall j :: 0 <= j < k ==> probes[j] == TimeZero
    ensures var reg := st.registry.value;
      var r := OnCompleteSpec(cfg, env, st, Lit("subscribe"), ch, NoBody, probes);
      var resume := if st.currentTimetoken == Lit("0") then probes[k].shown else st.currentTimetoken;
      r.registry == Some(Without(reg, ch) + [Entry(ch, true, false)]) &&
      r.currentTimetoken == resume &&
      r.trace == st.trace + Repeat(DisconnectEvent(ch), if Tracked(reg, ch) then 1 else 0)
                 + Repeat(ReconnectEvent(ch), k) + [PollOf(cfg, ch, resume)]
  {
    KindsDiffer();
    DropResumes(cfg, env, st, ch, NoBody, probes, k);
  }

  /** A dropped response that still carries a batch: after the resubscribe
      the handler falls through to the messages and polls a second time,
      from element 1 of the response. */
  lemma DropWithBodyPollsTwice(cfg: Config, env: Env, st: State, ch: Text, items: seq<Json>, probes: seq<TimeResult>, k: nat)
    requires Consistent(st) && cfg.callbackSet && st.registry.Some? && !Halted(st.registry.value, ch)
    requires Dropped(env, Body(items)) && |items| > 0 && items[0].JArray? && AllDecrypt(env, CipherOn(cfg), items[0].items)
    requires k < |probes| && probes[k].TimeValue? && forall j :: 0 <= j < k ==> probes[j] == TimeZero
    ensures var reg := st.registry.value;
      var r := OnCompleteSpec(cfg, env, st, Lit("subscribe"), ch, Body(items), probes);
      var resume := if st.currentTimetoken == Lit("0") then probes[k].shown else st.currentTimetoken;
      var next := NextTimetoken(env, items);
      r.registry == Some(Without(reg, ch) + [Entry(ch, true, false)]) &&
      r.currentTimetoken == next &&
      r.trace == st.trace + Repeat(DisconnectEvent(ch), if Tracked(reg, ch) then 1 else 0)
                 + Repeat(ReconnectEvent(ch), k) + [PollOf(cfg, ch, resume)]
                 + MessageEvents(env, CipherOn(cfg), ch, items[0].items, 0) + [PollOf(cfg, ch, next)]
  {
    KindsDiffer();
    DropResumes(cfg, env, st, ch, Body(items), probes, k);
    var s := Resumed(cfg, st, ch, probes, k);
    NewEntryNotHalted(st.registry.value, ch);
    DeliverAll(cfg, env, s, ch, items);
  }

  // ---------------------------------------------------------------------
  // The invariant

  lemma SubscribeInnerConsistent(cfg: Config, st: State, ch: Text, tt: Text)
    requires Consistent(st)
    ensures Consistent(SubscribeInnerSpec(cfg, st, ch, tt))
  {
    SubscribedKeepsNamesUnique(st.registry, ch);
    var (reg, present) := Subscribed(st.registry, ch);
    var errors := if present then Notify(cfg, ErrorEvent(ch, AlreadyConnected())) else [];
    SubscribeBaseNoConnect(cfg, State(Some(reg), st.currentTimetoken, st.trace + errors), ch, tt);
  }

  lemma DropConsistent(cfg: Config, env: Env, st: State, reg: Table, ch: Text, resp: Response, probes: seq<TimeResult>)
    requires NoDuplicates(reg) && !resp.Unparsable?
    ensures Consistent(DropSpec(cfg, env, st, reg, ch, resp, probes))
  {
    var (reg1, n) := Sweep(reg, ch);
    SweepRemovesChannel(reg, ch);
    var k := Misses(probes);
    var st1 := State(Some(reg1), st.currentTimetoken,
                     st.trace + Repeat(DisconnectEvent(ch), n) + Repeat(ReconnectEvent(ch), k));
    if k < |probes| {
      var resume := if st.currentTimetoken == Lit("0") then probes[k].shown else st.currentTimetoken;
      SubscribeInnerConsistent(cfg, st1, ch, resume);
      var st2 := SubscribeInnerSpec(cfg, st1, ch, resume);
      if resp.Body? {
        DeliverNoConnect(cfg, env, st2, ch, resp.items);
      }
    }
  }

  lemma SubscribeResponseConsistent(cfg: Config, env: Env, st: State, ch: Text, resp: Response, probes: seq<TimeResult>)
    requires Consistent(st) && !resp.Unparsable?
    ensures Consistent(SubscribeResponse(cfg, env, st, ch, resp, probes))
  {
    if st.registry.Some? {
      var reg := st.registry.value;
      if Halted(reg, ch) {
      } else if Dropped(env, resp) {
        DropConsistent(cfg, env, st, reg, ch, resp, probes);
      } else {
        WelcomeOnce(reg, ch);
        var (reg1, fired) := Welcomed(reg, ch);
        var st1 := st.(registry := Some(reg1), trace := st.trace + (if fired then [ConnectEvent(ch)] else []));
        DeliverNoConnect(cfg, env, st1, ch, resp.items);
      }
    }
  }

  /** No step ever gives a channel name a second entry. */
  lemma StepsKeepNamesUnique(cfg: Config, env: Env, st: State, ch: Text, m: Message, limit: int,
                             reqFor: Text, resp: Response, probes: seq<TimeResult>)
    requires Consistent(st)
    ensures Consistent(SubscribeSpec(cfg, st, ch))
    ensures UnsubscribeSpec(st, ch).Some? ==> Consistent(UnsubscribeSpec(st, ch).value)
    ensures PublishSpec(cfg, env, st, ch, m).Some? ==> Consistent(PublishSpec(cfg, env, st, ch, m).value)
    ensures Consistent(HistorySpec(cfg, st, ch, limit))
    ensures Consistent(OnCompleteSpec(cfg, env, st, reqFor, ch, resp, probes))
  {
    SubscribeInnerConsistent(cfg, st, ch, Lit("0"));
    if st.registry.Some? {
      UnsubscribeHalts(st.registry.value, ch);
    }
    RequestsKeepRegistry(cfg, env, st, ch, m, limit);
    OnCompleteConsistent(cfg, env, st, reqFor, ch, resp, probes);
  }

  lemma RequestsKeepRegistry(cfg: Config, env: Env, st: State, ch: Text, m: Message, limit: int)
    ensures PublishSpec(cfg, env, st, ch, m).Some? ==> PublishSpec(cfg, env, st, ch, m).value.registry == st.registry
    ensures HistorySpec(cfg, st, ch, limit).registry == st.registry
  {
  }

  lemma OnCompleteConsistent(cfg: Config, env: Env, st: State, reqFor: Text, ch: Text, resp: Response, probes: seq<TimeResult>)
    requires Consistent(st)
    ensures Consistent(OnCompleteSpec(cfg, env, st, reqFor, ch, resp, probes))
  {
    if cfg.callbackSet && !resp.Unparsable? && reqFor == Lit("subscribe") {
      KindsDiffer();
      SubscribeResponseConsistent(cfg, env, st, ch, resp, probes);
    }
  }

  // ---------------------------------------------------------------------
  // publish and history

  /** publish queues exactly one request, for its seven segments, and
      changes neither the registry nor the current timetoken; its response
      fires exactly one callback. */
  lemma PublishOnlyQueues(cfg: Config, env: Env, st: State, ch: Text, m: Message, resp: Response)
    requires cfg.callbackSet && !resp.Unparsable?
    ensures m.NullMessage? <==> PublishSpec(cfg, env, st, ch, m).None?
    ensures PublishSpec(cfg, env, st, ch, m).Some? ==>
      var msg := MessageText(env, CipherOn(cfg), m).value;
      var sig := Signature(env, cfg.publishKey, cfg.subscribeKey, cfg.secretKey, ch, msg);
      var segs := PublishSegments(cfg.publishKey, cfg.subscribeKey, sig, ch, msg);
      var r := PublishSpec(cfg, env, st, ch, m).value;
      r.registry == st.registry && r.currentTimetoken == st.currentTimetoken &&
      r.trace == st.trace + [Sent(segs, ch, Url(cfg.origin, segs))]
    ensures OnCompleteSpec(cfg, env, st, Lit("publish"), ch, resp, []) ==
      st.(trace := st.trace + [PublishEvent(ch, if resp.Body? then JArray(resp.items) else PublishFailed())])
  {
    KindsDiffer();
  }

  /** history queues exactly one request and changes neither the registry
      nor the current timetoken; its response fires exactly one callback
      when no cipher key is set. */
  lemma HistoryOnlyQueues(cfg: Config, env: Env, st: State, ch: Text, limit: int, resp: Response)
    requires cfg.callbackSet && !resp.Unparsable?
    ensures var r := HistorySpec(cfg, st, ch, limit);
      r.registry == st.registry && r.currentTimetoken == st.currentTimetoken &&
      r.trace == st.trace + [Sent(HistorySegments(cfg.subscribeKey, ch, limit), ch, Url(cfg.origin, HistorySegments(cfg.subscribeKey, ch, limit)))]
    ensures var r := OnCompleteSpec(cfg, env, st, Lit("history"), ch, resp, []);
      r.registry == st.registry && r.currentTimetoken == st.currentTimetoken &&
      (!CipherOn(cfg) ==> r.trace == st.trace + [HistoryEvent(ch, if resp.Body? then Some(JArray(resp.items)) else None)])
  {
    KindsDiffer();
  }
}
