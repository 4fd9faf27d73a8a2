/** The J2ME client's state machine, as values: the registry, the
    current_timetoken field and a trace of everything the client does that
    can be seen from outside (callbacks fired, requests queued). Each
    public operation and each response handled (OnComplet) is one step. */
module Engine {
  import opened Wrappers
  import opened Texts
  import opened JsonValues
  import opened Oracles
  import opened Requests
  import opened Registry

  datatype Event =
    | ErrorEvent(channel: Text, detail: Json)
    | ConnectEvent(channel: Text)
    | DisconnectEvent(channel: Text)
    | ReconnectEvent(channel: Text)
    | MessageEvent(channel: Text, payload: Json)
    | HistoryEvent(channel: Text, body: Option<Json>)
    | PublishEvent(channel: Text, reply: Json)
    /** A request handed to the HTTP queue: its segments, the channel its
        response will be reported for, and its URL. */
    | Sent(segments: seq<Text>, channel: Text, url: Text)

  /** The body of a response: null (the request failed), text that does not
      parse as a JSON array, or the parsed array. */
  datatype Response = NoBody | Unparsable | Body(items: seq<Json>)

  /** One call of time(): 0 when the request or its parsing failed,
      otherwise the server time as `time_token + ""` renders it. */
  datatype TimeResult = TimeZero | TimeValue(shown: Text)

  /** The fields init sets, and whether a callback object is installed. */
  datatype Config = Config(
    origin: Text, publishKey: Text, subscribeKey: Text, secretKey: Text,
    cipherKey: Text, callbackSet: bool)

  /** registry is None until the first subscribe creates the vector. */
  datatype State = State(registry: Option<Table>, currentTimetoken: Text, trace: seq<Event>)

  function AlreadyConnected(): Json
  {
    JArray([JString(Lit("Already Connected."))])
  }

  function PublishFailed(): Json
  {
    JArray([JString(Lit("0")), JString(Lit("Error: Failed JSONP HTTP Request."))])
  }

  /** A callback fires only when a callback object is installed. */
  function Notify(cfg: Config, e: Event): (r: seq<Event>)
    ensures |r| <= 1 && (|r| == 1 <==> cfg.callbackSet)
    ensures |r| == 1 ==> r[0] == e
  {
    if cfg.callbackSet then [e] else []
  }

  function Repeat(e: Event, n: nat): (r: seq<Event>)
    ensures |r| == n && forall i :: 0 <= i < n ==> r[i] == e
  {
    if n == 0 then [] else [e] + Repeat(e, n - 1)
  }

  lemma RepeatOneMore(e: Event, n: nat)
    ensures Repeat(e, n + 1) == Repeat(e, n) + [e]
  {
    if n > 0 {
      RepeatOneMore(e, n - 1);
    }
  }

  lemma KindsDiffer()
    ensures Lit("subscribe") != Lit("publish") && Lit("subscribe") != Lit("history")
    ensures Lit("publish") != Lit("history") && Lit("subscribe") != Lit("time")
  {
    assert |Lit("subscribe")| == 9 && |Lit("publish")| == 7;
    assert Lit("publish")[0] != Lit("history")[0];
  }

  lemma MissesExactly(probes: seq<TimeResult>, k: nat)
    requires k < |probes| && probes[k].TimeValue?
    requires forall j :: 0 <= j < k ==> probes[j] == TimeZero
    ensures Misses(probes) == k
  {
  }

  // ---------------------------------------------------------------------
  // Issuing requests

  predicate WellFormed(segs: seq<Text>)
  {
    |segs| > 0 && (segs[0] == Lit("subscribe") ==> |segs| > 4)
  }

  /** _request: a subscribe records its timetoken segment as the current
      timetoken; every request is queued under its URL. */
  function RequestSpec(cfg: Config, st: State, segs: seq<Text>, ch: Text): (r: State)
    requires WellFormed(segs)
    ensures r.registry == st.registry
    ensures st.trace <= r.trace && |r.trace| == |st.trace| + 1
    ensures r.trace[|st.trace|] == Sent(segs, ch, Url(cfg.origin, segs))
    ensures segs[0] != Lit("subscribe") ==> r.currentTimetoken == st.currentTimetoken
  {
    State(st.registry,
          if segs[0] == Lit("subscribe") then segs[4] else st.currentTimetoken,
          st.trace + [Sent(segs, ch, Url(cfg.origin, segs))])
  }

  /** _subscribe_base: stop with a disconnect callback if the channel is
      halted, otherwise poll from `tt`. A missing vector makes the scan
      throw, and the exception is swallowed. */
  function SubscribeBaseSpec(cfg: Config, st: State, ch: Text, tt: Text): (r: State)
    ensures r.registry == st.registry
    ensures st.trace <= r.trace && |r.trace| <= |st.trace| + 1
  {
    match st.registry
    case None => st
    case Some(reg) =>
      if Halted(reg, ch) then st.(trace := st.trace + Notify(cfg, DisconnectEvent(ch)))
      else RequestSpec(cfg, st, SubscribeSegments(cfg.subscribeKey, ch, tt), ch)
  }

  /** _subscribe: register the channel (or report it as already connected,
      then poll anyway), then _subscribe_base. */
  function SubscribeInnerSpec(cfg: Config, st: State, ch: Text, tt: Text): (r: State)
    ensures r.registry.Some? && Tracked(r.registry.value, ch)
    ensures st.trace <= r.trace && |r.trace| <= |st.trace| + 2
  {
    var (reg, present) := Subscribed(st.registry, ch);
    assert !present ==> reg[|reg| - 1].channel == ch;
    var errors := if present then Notify(cfg, ErrorEvent(ch, AlreadyConnected())) else [];
    SubscribeBaseSpec(cfg, State(Some(reg), st.currentTimetoken, st.trace + errors), ch, tt)
  }

  /** subscribe: _subscribe from timetoken "0". */
  function SubscribeSpec(cfg: Config, st: State, ch: Text): (r: State)
    ensures r.registry.Some? && Tracked(r.registry.value, ch)
    ensures st.trace <= r.trace
  {
    SubscribeInnerSpec(cfg, st, ch, Lit("0"))
  }

  /** unsubscribe; None when no vector exists yet (the scan throws to the
      caller). */
  function UnsubscribeSpec(st: State, ch: Text): (r: Option<State>)
    ensures r.None? <==> st.registry.None?
    ensures r.Some? ==> r.value.registry.Some? && r.value.trace == st.trace && r.value.currentTimetoken == st.currentTimetoken
  {
    match st.registry
    case None => None
    case Some(reg) => Some(st.(registry := Some(Unsubscribed(reg, ch))))
  }

  function CipherOn(cfg: Config): bool
  {
    |cfg.cipherKey| > 0
  }

  /** publish; None for a null message (its toString throws to the caller). */
  function PublishSpec(cfg: Config, env: Env, st: State, ch: Text, m: Message): (r: Option<State>)
    ensures r.None? <==> m.NullMessage?
    ensures r.Some? ==> r.value.registry == st.registry && r.value.currentTimetoken == st.currentTimetoken
    ensures r.Some? ==> st.trace <= r.value.trace && |r.value.trace| == |st.trace| + 1
  {
    match MessageText(env, CipherOn(cfg), m)
    case None => None
    case Some(msg) =>
      var sig := Signature(env, cfg.publishKey, cfg.subscribeKey, cfg.secretKey, ch, msg);
      Some(RequestSpec(cfg, st, PublishSegments(cfg.publishKey, cfg.subscribeKey, sig, ch, msg), ch))
  }

  function HistorySpec(cfg: Config, st: State, ch: Text, limit: int): (r: State)
    ensures r.registry == st.registry && r.currentTimetoken == st.currentTimetoken
    ensures st.trace <= r.trace && |r.trace| == |st.trace| + 1
  {
    RequestSpec(cfg, st, HistorySegments(cfg.subscribeKey, ch, limit), ch)
  }

  // ---------------------------------------------------------------------
  // Handling a subscribe response

  /** `response == null || out.optInt(1) == 0`; optInt of a missing
      element is 0. */
  predicate Dropped(env: Env, resp: Response): (d: bool)
    ensures resp.NoBody? ==> d
    ensures resp.Body? && |resp.items| < 2 ==> d
    ensures d ==> !resp.Unparsable?
  {
    resp.NoBody? || (resp.Body? && (|resp.items| < 2 || env.optIntIsZero(resp.items[1])))
  }

  /** The timetoken of the next poll: element 1 as optString reads it when
      that is non-empty, otherwise "0". */
  function NextTimetoken(env: Env, items: seq<Json>): (t: Text)
    ensures |t| > 0
    ensures |items| > 1 && |ToText(env, items[1])| > 0 ==> t == ToText(env, items[1])
  {
    var t := if |items| > 1 then ToText(env, items[1]) else [];
    if |t| > 0 then t else Lit("0")
  }

  /** How many calls of time() fail before one succeeds. */
  function Misses(probes: seq<TimeResult>): (k: nat)
    ensures k <= |probes|
    ensures forall j :: 0 <= j < k ==> probes[j] == TimeZero
    ensures k < |probes| ==> probes[k].TimeValue?
  {
    if probes == [] || probes[0].TimeValue? then 0 else 1 + Misses(probes[1..])
  }

  /** What subscribeCallback receives for message i, or None when the
      decryption throws: an object or an array (decrypted when a cipher key
      is set); for anything else, element 0 of the messages as a string. */
  function Payload(env: Env, cipherOn: bool, msgs: seq<Json>, i: nat): (r: Option<Json>)
    requires i < |msgs|
    ensures !cipherOn ==> r.Some?
    ensures !cipherOn && (msgs[i].JObject? || msgs[i].JArray?) ==> r == Some(msgs[i])
    ensures r.Some? && !msgs[i].JObject? && !msgs[i].JArray? ==> r.value.JString?
  {
    var m := msgs[i];
    if m.JObject? then
      (if cipherOn then env.decryptObject(m) else Some(m))
    else if m.JArray? then
      (if cipherOn then (if env.decryptArray(m).Plain? then Some(env.decryptArray(m).value) else None)
       else Some(m))
    else
      var t := ToText(env, msgs[0]);
      if cipherOn then
        (if env.decryptString(t).Some? then Some(JString(env.decryptString(t).value)) else None)
      else Some(JString(t))
  }

  /** The message loop from index i: one callback per message in index
      order; the second component is false when a decryption threw, which
      ends the handler. */
  function DispatchFrom(env: Env, cipherOn: bool, ch: Text, msgs: seq<Json>, i: nat): (r: (seq<Event>, bool))
    ensures i <= |msgs| ==> |r.0| <= |msgs| - i
    ensures i <= |msgs| && r.1 ==> |r.0| == |msgs| - i
    decreases |msgs| - i
  {
    if i >= |msgs| then ([], true)
    else match Payload(env, cipherOn, msgs, i)
      case None => ([], false)
      case Some(p) =>
        var (rest, ok) := DispatchFrom(env, cipherOn, ch, msgs, i + 1);
        ([MessageEvent(ch, p)] + rest, ok)
  }

  /** The tail of the subscribe branch: optJSONArray(0) is null unless
      element 0 is an array, and the loop over it then throws; otherwise
      the messages are dispatched and the next poll issued. */
  function DeliverSpec(cfg: Config, env: Env, st: State, ch: Text, items: seq<Json>): (r: State)
    ensures r.registry == st.registry
    ensures st.trace <= r.trace
  {
    if |items| == 0 || !items[0].JArray? then st
    else
      var (evs, ok) := DispatchFrom(env, CipherOn(cfg), ch, items[0].items, 0);
      var st1 := st.(trace := st.trace + evs);
      if ok then SubscribeBaseSpec(cfg, st1, ch, NextTimetoken(env, items)) else st1
  }

  /** The drop path: remove the channel's entries (one disconnect callback
      each), call time() until it answers (one reconnect callback per
      failure), then _subscribe again from the timetoken of the last poll,
      or from the server time when that was "0". When every given time()
      call fails the client is still probing and nothing further happens.
      With no body the handler then throws; with a body it goes on to the
      messages. */
  function DropSpec(cfg: Config, env: Env, st: State, reg: Table, ch: Text, resp: Response, probes: seq<TimeResult>): (r: State)
    requires !resp.Unparsable?
    ensures r.registry.Some?
    ensures st.trace <= r.trace
  {
    var (reg1, n) := Sweep(reg, ch);
    var k := Misses(probes);
    var st1 := State(Some(reg1), st.currentTimetoken,
                     st.trace + Repeat(DisconnectEvent(ch), n) + Repeat(ReconnectEvent(ch), k));
    if k == |probes| then st1
    else
      var resume := if st.currentTimetoken == Lit("0") then probes[k].shown else st.currentTimetoken;
      var st2 := SubscribeInnerSpec(cfg, st1, ch, resume);
      if resp.NoBody? then st2 else DeliverSpec(cfg, env, st2, ch, resp.items)
  }

  /** The subscribe branch of OnComplet (a callback object is installed and
      the body parsed). */
  function SubscribeResponse(cfg: Config, env: Env, st: State, ch: Text, resp: Response, probes: seq<TimeResult>): (r: State)
    requires !resp.Unparsable?
    ensures st.registry.None? ==> r == st
    ensures st.trace <= r.trace
  {
    match st.registry
    case None => st
    case Some(reg) =>
      if Halted(reg, ch) then st.(trace := st.trace + [DisconnectEvent(ch)])
      else if Dropped(env, resp) then DropSpec(cfg, env, st, reg, ch, resp, probes)
      else
        var (reg1, fired) := Welcomed(reg, ch);
        var st1 := st.(registry := Some(reg1),
                       trace := st.trace + (if fired then [ConnectEvent(ch)] else []));
        DeliverSpec(cfg, env, st1, ch, resp.items)
  }

  /** The history branch: the body (decrypted when a cipher key is set; an
      IOException keeps it as received) goes to historyCallback. */
  function HistoryResponse(cfg: Config, env: Env, st: State, ch: Text, resp: Response): (r: State)
    requires !resp.Unparsable?
    ensures r.registry == st.registry && r.currentTimetoken == st.currentTimetoken
    ensures st.trace <= r.trace && |r.trace| <= |st.trace| + 1
  {
    var out := if resp.Body? then Some(JArray(resp.items)) else None;
    if CipherOn(cfg) then
      var d := if out.Some? then env.decryptArray(out.value) else env.decryptNull;
      match d
      case Plain(v) => st.(trace := st.trace + [HistoryEvent(ch, Some(v))])
      case IoFailed => st.(trace := st.trace + [HistoryEvent(ch, out)])
      case Aborted => st
    else st.(trace := st.trace + [HistoryEvent(ch, out)])
  }

  /** The publish branch: a missing body is reported as ["0", error]. */
  function PublishResponse(st: State, ch: Text, resp: Response): (r: State)
    requires !resp.Unparsable?
    ensures r.registry == st.registry && r.currentTimetoken == st.currentTimetoken
    ensures st.trace <= r.trace && |r.trace| == |st.trace| + 1
  {
    var out := if resp.Body? then JArray(resp.items) else PublishFailed();
    st.(trace := st.trace + [PublishEvent(ch, out)])
  }

  /** OnComplet for a request of kind `reqFor` queued for channel `ch`.
      `probes` is what the successive calls of time() return, consumed only
      by the drop path. Nothing at all happens without a callback object or
      when the body does not parse. */
  function OnCompleteSpec(cfg: Config, env: Env, st: State, reqFor: Text, ch: Text, resp: Response, probes: seq<TimeResult>): (r: State)
    ensures !cfg.callbackSet || resp.Unparsable? ==> r == st
    ensures st.trace <= r.trace
  {
    if !cfg.callbackSet || resp.Unparsable? then st
    else if reqFor == Lit("history") then HistoryResponse(cfg, env, st, ch, resp)
    else if reqFor == Lit("publish") then PublishResponse(st, ch, resp)
    else if reqFor == Lit("subscribe") then SubscribeResponse(cfg, env, st, ch, resp, probes)
    else st
  }
}
