/**
 An LSP client session: requests that wait for their own reply while the server interleaves its
 own requests and notifications, and the readiness that those notifications report. The channel
 of incoming messages is any sequence of events; any send may fail.
*/
module LspSessions {
  import opened Options
  import opened SourceText

  datatype Json =
    | Null
    | Bool(b: bool)
    | Num(n: int)
    | Frac(text: string)
    | Str(s: string)
    | Arr(items: seq<Json>)
    | Obj(fields: map<string, Json>)
  {
    function Get(key: string): Option<Json> {
      if Obj? && key in fields then Some(fields[key]) else None
    }

    /** Indexing, which yields null for anything missing. */
    function At(key: string): Json {
      if Obj? && key in fields then fields[key] else Null
    }

    function AsU64(): Option<nat> {
      if Num? && 0 <= n < 0x1_0000_0000_0000_0000 then Some(n) else None
    }

    function AsI64(): Option<int> {
      if Num? && -0x8000_0000_0000_0000 <= n < 0x8000_0000_0000_0000 then Some(n) else None
    }

    function AsStr(): Option<string> {
      if Str? then Some(s) else None
    }
  }

  predicate HasMethod(m: Json) {
    m.Get("method").Some?
  }

  function MethodName(m: Json): Option<string> {
    if m.Get("method").Some? then m.Get("method").value.AsStr() else None
  }

  function MessageId(m: Json): Option<nat> {
    if m.Get("id").Some? then m.Get("id").value.AsU64() else None
  }

  // -------------------------------------------------------------------
  // Answers to the server's own requests
  // -------------------------------------------------------------------

  function SplitDots(s: string): (r: seq<string>)
    ensures r != []
  {
    if s == [] then [""]
    else
      var later := SplitDots(s[1..]);
      if s[0] == '.' then [""] + later else [[s[0]] + later[0]] + later[1..]
  }

  function Descend(value: Json, keys: seq<string>): Option<Json> {
    if keys == [] then Some(value)
    else
      match value.Get(keys[0])
      case None => None
      case Some(inner) => Descend(inner, keys[1..])
  }

  function JoinDots(keys: seq<string>): string
    requires keys != []
  {
    if |keys| == 1 then keys[0] else keys[0] + "." + JoinDots(keys[1..])
  }

  /** Splitting yields the parts between the dots. */
  lemma {:induction false} SplitJoins(s: string)
    ensures JoinDots(SplitDots(s)) == s
    ensures forall key | key in SplitDots(s) :: '.' !in key
  {
    if s == [] {
    } else {
      var later := SplitDots(s[1..]);
      SplitJoins(s[1..]);
      if s[0] == '.' {
        assert SplitDots(s)[1..] == later;
      } else {
        assert SplitDots(s)[1..] == later[1..];
      }
    }
  }

  /** Values nested one in the other under the keys of a path. */
  ghost predicate Nests(chain: seq<Json>, keys: seq<string>) {
    |chain| == |keys| + 1 && forall i | 0 <= i < |keys| :: chain[i].Get(keys[i]) == Some(chain[i + 1])
  }

  ghost predicate Reaches(value: Json, keys: seq<string>, inner: Json) {
    exists chain :: Nests(chain, keys) && chain[0] == value && chain[|keys|] == inner
  }

  lemma ReachesThrough(value: Json, keys: seq<string>, inner: Json)
    requires keys != []
    ensures var next := value.Get(keys[0]);
            Reaches(value, keys, inner) <==> next.Some? && Reaches(next.value, keys[1..], inner)
  {
    var next := value.Get(keys[0]);
    if next.Some? {
      if chain :| Nests(chain, keys[1..]) && chain[0] == next.value && chain[|keys| - 1] == inner {
        assert Nests([value] + chain, keys);
      }
    }
    if chain: seq<Json> :| Nests(chain, keys) && chain[0] == value && chain[|keys|] == inner {
      assert chain[0].Get(keys[0]) == Some(chain[1]);
      assert Nests(chain[1..], keys[1..]);
    }
  }

  lemma {:induction false} DescendReaches(value: Json, keys: seq<string>, inner: Json)
    ensures Descend(value, keys) == Some(inner) <==> Reaches(value, keys, inner)
    decreases keys
  {
    if keys == [] {
      assert Nests([value], keys);
    } else {
      ReachesThrough(value, keys, inner);
      if value.Get(keys[0]).Some? {
        DescendReaches(value.Get(keys[0]).value, keys[1..], inner);
      }
    }
  }

  /** The configured value of one requested section, or null. */
  function Setting(configuration: Json, item: Json): Json {
    match item.At("section").AsStr()
    case None => Null
    case Some(section) =>
      match Descend(configuration, SplitDots(section))
      case None => Null
      case Some(value) => value
  }

  function Settings(configuration: Json, items: Json): seq<Json> {
    if items.Arr? then seq(|items.items|, i requires 0 <= i < |items.items| => Setting(configuration, items.items[i])) else []
  }

  function ResultMessage(id: Json, result: Json): Json {
    Obj(map["jsonrpc" := Str("2.0"), "id" := id, "result" := result])
  }

  function ErrorMessage(id: Json, code: int, message: string): Json {
    Obj(map["jsonrpc" := Str("2.0"), "id" := id, "error" := Obj(map["code" := Num(code), "message" := Str(message)])])
  }

  const REFUSED_EDIT := Obj(map["applied" := Bool(false), "failureReason" := Str("CodeFacts LSP sessions are read-only")])

  datatype ServerCall = Configuration | WorkspaceFolders | Bookkeeping | ApplyEdit | Unsupported

  function CallOf(m: Json): ServerCall {
    match MethodName(m)
    case None => Unsupported
    case Some(name) =>
      if name == "workspace/configuration" then Configuration
      else if name == "workspace/workspaceFolders" then WorkspaceFolders
      else if name == "client/registerCapability" || name == "client/unregisterCapability"
              || name == "window/workDoneProgress/create" then Bookkeeping
      else if name == "workspace/applyEdit" then ApplyEdit
      else Unsupported
  }

  /** The result a server request is owed; None refuses it as unsupported. */
  function ResultOf(configuration: Json, workspaceFolders: Json, m: Json): Option<Json> {
    match CallOf(m)
    case Configuration => Some(Arr(Settings(configuration, m.At("params").At("items"))))
    case WorkspaceFolders => Some(workspaceFolders)
    case Bookkeeping => Some(Null)
    case ApplyEdit => Some(REFUSED_EDIT)
    case Unsupported => None
  }

  function Reply(id: Json, result: Option<Json>): Json {
    match result
    case Some(value) => ResultMessage(id, value)
    case None => ErrorMessage(id, -32601, "Method not supported by read-only CodeFacts LSP client")
  }

  /** The one answer to a server request with the given id. */
  function AnswerTo(configuration: Json, workspaceFolders: Json, m: Json, id: Json): Json {
    Reply(id, ResultOf(configuration, workspaceFolders, m))
  }

  // -------------------------------------------------------------------
  // Readiness reported by notifications
  // -------------------------------------------------------------------

  datatype Readiness = Readiness(documents: set<string>, diagnostics: set<string>, busySeen: bool, quiescent: bool,
                                 health: Option<string>)

  const NOT_READY := Readiness({}, {}, false, false, None)

  /** Diagnostics for the first version of an opened document, or None. */
  function Diagnosed(documents: set<string>, m: Json): Option<string> {
    var params := m.At("params");
    var version := params.Get("version");
    if MethodName(m) == Some("textDocument/publishDiagnostics") && params.At("diagnostics").Arr?
       && (version.None? || version.value.AsI64() == Some(1)) && params.At("uri").Str? && params.At("uri").s in documents
    then Some(params.At("uri").s) else None
  }

  /** The quiescence a server status reports, or None. */
  function Quiescence(m: Json): Option<bool> {
    var q := m.At("params").At("quiescent");
    if MethodName(m) == Some("experimental/serverStatus") && q.Bool? then Some(q.b) else None
  }

  function HealthOf(m: Json): Option<string> {
    m.At("params").At("health").AsStr()
  }

  function Noted(ready: Readiness, m: Json): Readiness {
    if Diagnosed(ready.documents, m).Some? then ready.(diagnostics := ready.diagnostics + {Diagnosed(ready.documents, m).value})
    else if Quiescence(m).Some? then
      ready.(busySeen := ready.busySeen || !Quiescence(m).value, quiescent := Quiescence(m).value,
             health := HealthOf(m))
    else ready
  }

  // -------------------------------------------------------------------
  // Event streams
  // -------------------------------------------------------------------

  /** What a session meets next: a message, a moment when none is waiting, a dead reader, or the deadline. */
  datatype Event = Received(message: Json) | Idle | ReaderFailed | TimedOut {
    predicate Fails() { ReaderFailed? || TimedOut? }
  }

  predicate IsServerRequest(e: Event) {
    e.Received? && HasMethod(e.message) && e.message.Get("id").Some?
  }

  predicate IsNotification(e: Event) {
    e.Received? && HasMethod(e.message) && e.message.Get("id").None?
  }

  /** The server requests of a stream, and the answers owed to them. */
  function ServerRequests(events: seq<Event>): (r: seq<Json>)
    ensures forall m | m in r :: HasMethod(m) && m.Get("id").Some?
  {
    if events == [] then []
    else
      var n := |events| - 1;
      ServerRequests(events[..n]) + if IsServerRequest(events[n]) then [events[n].message] else []
  }

  function Answers(configuration: Json, workspaceFolders: Json, events: seq<Event>): (r: seq<Json>)
    ensures |r| == |ServerRequests(events)|
  {
    var requests := ServerRequests(events);
    seq(|requests|, i requires 0 <= i < |requests| =>
      assert requests[i] in requests;
      AnswerTo(configuration, workspaceFolders, requests[i], requests[i].Get("id").value))
  }

  function ReadyAfter(ready: Readiness, events: seq<Event>): Readiness {
    if events == [] then ready
    else
      var n := |events| - 1;
      var before := ReadyAfter(ready, events[..n]);
      if IsNotification(events[n]) then Noted(before, events[n].message) else before
  }

  /** What a pending request passes over: messages of the server, replies to other requests, and moments of silence. */
  predicate Skipped(e: Event, id: nat) {
    e.Idle? || (e.Received? && (HasMethod(e.message) || MessageId(e.message) != Some(id)))
  }

  function StopAt(events: seq<Event>, id: nat): (k: nat)
    ensures k <= |events|
    ensures forall j | 0 <= j < k :: Skipped(events[j], id)
    ensures k < |events| ==> !Skipped(events[k], id)
  {
    if events == [] || !Skipped(events[0], id) then 0 else 1 + StopAt(events[1..], id)
  }

  lemma StopAtIs(events: seq<Event>, id: nat, k: nat)
    requires k <= |events| && (forall j | 0 <= j < k :: Skipped(events[j], id)) && (k < |events| ==> !Skipped(events[k], id))
    ensures StopAt(events, id) == k
  {
  }

  datatype Answer = Result(value: Json) | ServerError(code: Option<int>, text: string) | NoResult | Aborted

  const UNSPECIFIED := "unspecified server error"

  function ErrorText(message: Option<Json>): string {
    var text := match message case None => None case Some(t) => t.AsStr();
    var whole := if text.Some? then text.value else UNSPECIFIED;
    whole[..FloorBoundary(whole, 512)]
  }

  /** The meaning of the reply to a request. */
  function Interpret(m: Json): Answer {
    match m.Get("error")
    case Some(error) =>
      var code := match error.Get("code") case None => None case Some(c) => c.AsI64();
      ServerError(code, ErrorText(error.Get("message")))
    case None =>
      match m.Get("result")
      case Some(value) => Result(value)
      case None => NoResult
  }

  function RequestMessage(id: nat, name: string, params: Json): Json {
    Obj(map["jsonrpc" := Str("2.0"), "id" := Num(id), "method" := Str(name), "params" := params])
  }

  predicate InI64(n: int) {
    -0x8000_0000_0000_0000 <= n < 0x8000_0000_0000_0000
  }

  ghost predicate IsText(text: Option<Json>, s: string) {
    text == Some(Str(s))
  }

  /** As much of an error's text as fits 512 bytes, or a stock text if it gives none. */
  ghost predicate TextOf(message: Option<Json>, kept: string) {
    && (forall text | IsText(message, text) :: Longest(text, 512, kept))
    && ((forall text :: !IsText(message, text)) ==> kept == UNSPECIFIED)
  }

  /**
   What a reply means: an error, whatever stands beside it, is that error with its 64-bit code and the
   beginning of its text that fits 512 bytes; otherwise the result, if there is one.
  */
  ghost predicate Replied(m: Json, r: Answer) {
    && (m.Get("error").Some? ==>
          var error := m.Get("error").value;
          && r.ServerError?
          && (forall code :: r.code == Some(code) <==> error.Get("code") == Some(Num(code)) && InI64(code))
          && TextOf(error.Get("message"), r.text))
    && (m.Get("error").None? && m.Get("result").Some? ==> r == Result(m.Get("result").value))
    && (m.Get("error").None? && m.Get("result").None? ==> r == NoResult)
  }

  lemma FloorIsLongest(s: string, maxBytes: nat)
    ensures Longest(s, maxBytes, s[..FloorBoundary(s, maxBytes)])
  {
  }

  lemma UnspecifiedKept(t: string)
    requires Longest(UNSPECIFIED, 512, t)
    ensures t == UNSPECIFIED
  {
    FourBytesEach(UNSPECIFIED);
    ShortTextKept(UNSPECIFIED, 512, t);
  }

  lemma ErrorTextKept(message: Option<Json>)
    ensures TextOf(message, ErrorText(message))
  {
    if message.Some? && message.value.Str? {
      assert IsText(message, message.value.s);
      FloorIsLongest(message.value.s, 512);
    } else {
      FloorIsLongest(UNSPECIFIED, 512);
      UnspecifiedKept(UNSPECIFIED[..FloorBoundary(UNSPECIFIED, 512)]);
    }
  }

  lemma InterpretReplies(m: Json)
    ensures Replied(m, Interpret(m))
  {
    if m.Get("error").Some? {
      ErrorTextKept(m.Get("error").value.Get("message"));
    }
  }

  /** A request goes out as a message with its id, its method and its parameters. */
  lemma BuiltRequest(id: nat, name: string, params: Json)
    requires id < 0x1_0000_0000_0000_0000
    ensures var m := RequestMessage(id, name, params);
            MessageId(m) == Some(id) && MethodName(m) == Some(name) && m.At("params") == params
  {
    assert RequestMessage(id, name, params).Get("id") == Some(Num(id));
  }

  /** The replies a server builds: each is the reply to its id, a result returned as it is and an error with its code and text. */
  lemma BuiltReplies(id: nat, value: Json, code: int, text: string, r: Answer)
    requires id < 0x1_0000_0000_0000_0000
    ensures AcceptedAt([Received(ResultMessage(Num(id), value))], 0, id)
    ensures AcceptedAt([Received(ErrorMessage(Num(id), code, text))], 0, id)
    ensures Replied(ResultMessage(Num(id), value), r) <==> r == Result(value)
    ensures Replied(ErrorMessage(Num(id), code, text), r) ==>
              r.ServerError? && (InI64(code) ==> r.code == Some(code)) && Longest(text, 512, r.text)
  {
    var m := ErrorMessage(Num(id), code, text);
    assert m.Get("error").Some? && IsText(m.Get("error").value.Get("message"), text);
  }

  predicate AcceptedAt(events: seq<Event>, k: nat, id: nat) {
    k < |events| && events[k].Received? && !HasMethod(events[k].message) && MessageId(events[k].message) == Some(id)
  }

  datatype Verdict = NotRequired | Diagnostics | HealthyQuiescence | Unhealthy | GivenUp

  function Uris(documents: seq<string>): set<string> {
    set d | d in documents
  }

  function Watching(ready: Readiness, documents: seq<string>): Readiness {
    ready.(documents := Uris(documents))
  }

  /** The providers whose answers are worth nothing before they have settled. */
  predicate MustSettle(provider: string) {
    provider == "clangd" || provider == "rust-analyzer"
  }

  predicate AllDiagnosed(documents: seq<string>, diagnostics: set<string>) {
    forall d | d in documents :: d in diagnostics
  }

  /** What a provider's reports so far decide, if anything. */
  function Due(provider: string, documents: seq<string>, ready: Readiness): Option<Verdict> {
    if provider == "clangd" && AllDiagnosed(documents, ready.diagnostics) then Some(Diagnostics)
    else if provider == "rust-analyzer" && ready.busySeen && ready.quiescent then
      Some(if ready.health == Some("ok") then HealthyQuiescence else Unhealthy)
    else None
  }

  /** None of the first k events is a failure, and before each of them no verdict was due. */
  ghost predicate NothingDue(provider: string, documents: seq<string>, start: Readiness, events: seq<Event>, k: nat)
    requires k <= |events|
  {
    forall j | 0 <= j < k :: NotYet(provider, documents, start, events, j)
  }

  ghost predicate NotYet(provider: string, documents: seq<string>, start: Readiness, events: seq<Event>, j: nat)
    requires j < |events|
  {
    !events[j].Fails() && Due(provider, documents, ReadyAfter(start, events[..j])).None?
  }

  /** The i-th answer is what the message at the i-th place, bearing the i-th id, says; the places increase. */
  ghost predicate AnsweredInTurn(events: seq<Event>, first: nat, answers: seq<Answer>, places: seq<nat>) {
    && |answers| == |places|
    && (forall i | 0 <= i < |places| :: AnsweredAt(events, first + i, answers[i], places[i]))
    && (forall i, j | 0 <= i < j < |places| :: places[i] < places[j])
  }

  ghost predicate AnsweredAt(events: seq<Event>, id: nat, answer: Answer, place: nat) {
    place < |events| && AcceptedAt(events, place, id) && Replied(events[place].message, answer)
  }

  function UsedBy(places: seq<nat>): nat {
    if places == [] then 0 else places[|places| - 1] + 1
  }

  /** The stream ends or fails before a reply with the given id. */
  predicate GivesOut(events: seq<Event>, used: nat, id: nat) {
    used <= |events| && var k := StopAt(events[used..], id); k == |events[used..]| || events[used..][k].Fails()
  }

  ghost predicate AllBelow(places: seq<nat>, bound: nat) {
    forall i | 0 <= i < |places| :: places[i] < bound
  }

  lemma AnsweredNext(events: seq<Event>, first: nat, answers: seq<Answer>, places: seq<nat>, used: nat, place: nat, answer: Answer)
    requires AnsweredInTurn(events, first, answers, places) && AllBelow(places, used)
    requires used <= place && AnsweredAt(events, first + |places|, answer, place)
    ensures AnsweredInTurn(events, first, answers + [answer], places + [place])
    ensures AllBelow(places + [place], place + 1)
  {
    forall i | 0 <= i <= |places|
      ensures AnsweredAt(events, first + i, (answers + [answer])[i], (places + [place])[i])
    {
      if i < |places| {
        assert AnsweredAt(events, first + i, answers[i], places[i]);
      }
    }
  }


  class LspSession {
    var nextId: nat
    var ready: Readiness
    var incoming: seq<Event>      // what the reader thread will deliver
    var outbox: seq<Json>         // what the writer thread has acknowledged
    var sendsLeft: nat
    const configuration: Json
    const workspaceFolders: Json

    constructor (configuration: Json, workspaceFolders: Json, incoming: seq<Event>, sends: nat)
      ensures nextId == 1 && ready == NOT_READY && outbox == [] && this.incoming == incoming && sendsLeft == sends
    {
      this.configuration, this.workspaceFolders := configuration, workspaceFolders;
      this.nextId, this.ready, this.outbox, this.incoming, this.sendsLeft := 1, NOT_READY, [], incoming, sends;
    }

    method Send(message: Json) returns (ok: bool)
      modifies this`outbox, this`sendsLeft
      ensures ok <==> old(sendsLeft) > 0
      ensures ok ==> outbox == old(outbox) + [message] && sendsLeft == old(sendsLeft) - 1
      ensures !ok ==> outbox == old(outbox) && sendsLeft == old(sendsLeft)
    {
      ok := sendsLeft > 0;
      if ok {
        sendsLeft := sendsLeft - 1;
        outbox := outbox + [message];
      }
    }

    method ServerRequest(message: Json) returns (ok: bool)
      requires HasMethod(message)
      modifies this`outbox, this`sendsLeft, this`ready
      ensures message.Get("id").None? ==>
                ok && outbox == old(outbox) && sendsLeft == old(sendsLeft) && ready == Noted(old(ready), message)
      ensures message.Get("id").Some? ==>
                && ready == old(ready)
                && (ok <==> old(sendsLeft) > 0)
                && (ok ==> sendsLeft == old(sendsLeft) - 1 &&
                           outbox == old(outbox) + [AnswerTo(configuration, workspaceFolders, message, message.Get("id").value)])
                && (!ok ==> outbox == old(outbox) && sendsLeft == old(sendsLeft))
    {
      if message.Get("id").None? {
        var diagnosed := Diagnosed(ready.documents, message);
        var quiescent := Quiescence(message);
        if diagnosed.Some? {
          ready := ready.(diagnostics := ready.diagnostics + {diagnosed.value});
        } else if quiescent.Some? {
          ready := ready.(busySeen := ready.busySeen || !quiescent.value, quiescent := quiescent.value,
                          health := HealthOf(message));
        }
        return true;
      }
      ok := Send(AnswerTo(configuration, workspaceFolders, message, message.Get("id").value));
    }

    /** What comes while something else is awaited: a request is answered, a notification noted, anything else passed over. */
    method Serve(event: Event, ghost start: Readiness, ghost sent: seq<Json>, ghost events: seq<Event>, ghost k: nat)
        returns (ok: bool)
      requires k < |events| && events[k] == event
      requires ready == ReadyAfter(start, events[..k])
      requires outbox == sent + Answers(configuration, workspaceFolders, events[..k])
      modifies this`outbox, this`sendsLeft, this`ready
      ensures ok ==> ready == ReadyAfter(start, events[..k + 1])
      ensures ok ==> outbox == sent + Answers(configuration, workspaceFolders, events[..k + 1])
      ensures !ok ==> IsServerRequest(events[k]) && sendsLeft == 0 && outbox == old(outbox)
      ensures |outbox| + sendsLeft == old(|outbox| + sendsLeft)
    {
      AnswersSnoc(configuration, workspaceFolders, events, k);
      assert events[..k + 1][..k] == events[..k];
      ok := true;
      if event.Received? && HasMethod(event.message) {
        ok := ServerRequest(event.message);
      }
    }

    /** The receiving half of a request: server messages are served until the reply with the given id arrives. */
    method AwaitReply(id: nat) returns (r: Answer)
      modifies this`incoming, this`outbox, this`sendsLeft, this`ready
      ensures var k := StopAt(old(incoming), id);
              var owed := Answers(configuration, workspaceFolders, old(incoming)[..k]);
              && old(outbox) <= outbox <= old(outbox) + owed
              && (!r.Aborted? ==>
                    && AcceptedAt(old(incoming), k, id)
                    && r == Interpret(old(incoming)[k].message)
                    && Replied(old(incoming)[k].message, r)
                    && incoming == old(incoming)[k + 1..]
                    && outbox == old(outbox) + owed
                    && ready == ReadyAfter(old(ready), old(incoming)[..k]))
              && (r.Aborted? ==>
                    (outbox < old(outbox) + owed && sendsLeft == 0) || k == |old(incoming)| || old(incoming)[k].Fails())
      ensures |outbox| + sendsLeft == old(|outbox| + sendsLeft)
    {
      ghost var events, k := incoming, 0;
      assert Answers(configuration, workspaceFolders, events[..0]) == [];
      while true
        invariant 0 <= k <= |events| && incoming == events[k..]
        invariant forall j | 0 <= j < k :: Skipped(events[j], id)
        invariant outbox == old(outbox) + Answers(configuration, workspaceFolders, events[..k])
        invariant ready == ReadyAfter(old(ready), events[..k])
        invariant |outbox| + sendsLeft == old(|outbox| + sendsLeft)
        decreases |incoming|
      {
        if incoming == [] || incoming[0].Fails() {
          StopAtIs(events, id, k);
          return Aborted;
        }
        var event := incoming[0];
        incoming := incoming[1..];
        if event.Received? && !HasMethod(event.message) && MessageId(event.message) == Some(id) {
          StopAtIs(events, id, k);
          InterpretReplies(event.message);
          return Interpret(event.message);
        }
        var ok := Serve(event, old(ready), old(outbox), events, k);
        if !ok {
          AnswersPrefix(configuration, workspaceFolders, events, k, StopAt(events, id));
          return Aborted;
        }
        k := k + 1;
      }
    }

    /**
     A request is answered by the first message without a method that bears its id, whatever ids the
     server uses for its own requests; each of those seen before is answered once, in order. It is
     given up only when the stream fails or ends before that, or a send fails.
    */
    method Request(name: string, params: Json) returns (r: Answer)
      modifies this
      ensures nextId == old(nextId) + 1
      ensures var id, events := old(nextId), old(incoming);
              var k := StopAt(events, id);
              var sent := old(outbox) + [RequestMessage(id, name, params)] + Answers(configuration, workspaceFolders, events[..k]);
              && outbox <= sent
              && (!r.Aborted? ==>
                    && AcceptedAt(events, k, id)
                    && r == Interpret(events[k].message)
                    && Replied(events[k].message, r)
                    && incoming == events[k + 1..]
                    && outbox == sent
                    && ready == ReadyAfter(old(ready), events[..k]))
              && (r.Aborted? ==> (outbox < sent && sendsLeft == 0) || k == |events| || events[k].Fails())
      ensures |outbox| + sendsLeft == old(|outbox| + sendsLeft)
    {
      var id := nextId;
      nextId := nextId + 1;
      var ok := Send(RequestMessage(id, name, params));
      if !ok { return Aborted; }
      r := AwaitReply(id);
    }

    method RequestOnce(name: string, params: Json, ghost events: seq<Event>, ghost used: nat)
        returns (answer: Answer, ghost place: nat)
      requires used <= |events| && incoming == events[used..]
      modifies this
      ensures nextId == old(nextId) + 1
      ensures !answer.Aborted? ==> used <= place && AnsweredAt(events, old(nextId), answer, place) && incoming == events[place + 1..]
      ensures answer.Aborted? ==> sendsLeft == 0 || GivesOut(events, used, old(nextId))
    {
      place := used + StopAt(incoming, nextId);
      answer := Request(name, params);
    }

    /**
     A session's requests one after the other: ids are consecutive, and each accepted reply is a later
     message of the stream than the one before and bears the id of its own request, so a late reply
     to an earlier request is never taken for a later one.
    */
    method RequestAll(calls: seq<(string, Json)>) returns (answers: seq<Answer>, ghost places: seq<nat>)
      modifies this
      ensures |answers| == |places| <= |calls| && nextId <= old(nextId) + |answers| + 1
      ensures AnsweredInTurn(old(incoming), old(nextId), answers, places)
      ensures |answers| < |calls| ==> sendsLeft == 0 || GivesOut(old(incoming), UsedBy(places), old(nextId) + |answers|)
    {
      answers, places := [], [];
      ghost var events, first, used: nat := incoming, nextId, 0;
      for i := 0 to |calls|
        invariant |answers| == i && nextId == first + i
        invariant used <= |events| && incoming == events[used..]
        invariant AnsweredInTurn(events, first, answers, places) && AllBelow(places, used) && used == UsedBy(places)
      {
        var answer, place := RequestOnce(calls[i].0, calls[i].1, events, used);
        if answer.Aborted? { return; }
        AnsweredNext(events, first, answers, places, used, place, answer);
        answers := answers + [answer];
        places := places + [place];
        used := place + 1;
      }
    }

    /**
     Messages already there are served, at most sixteen and each request among them once, and what they
     reported is forgotten. It fails only when the stream or a send does.
    */
    method PrepareReadiness() returns (ok: bool, ghost k: nat)
      modifies this
      ensures k <= 16 && k <= |old(incoming)| && nextId == old(nextId)
      ensures |outbox| + sendsLeft == old(|outbox| + sendsLeft)
      ensures forall j | 0 <= j < k :: old(incoming)[j].Received?
      ensures outbox == old(outbox) + Answers(configuration, workspaceFolders, old(incoming)[..k])
      ensures ok ==> ready == NOT_READY
      ensures ok && k == 16 ==> incoming == old(incoming)[k..]
      ensures ok && k < 16 ==> k < |old(incoming)| && old(incoming)[k].Idle? && incoming == old(incoming)[k + 1..]
      ensures !ok ==> k == |old(incoming)| || old(incoming)[k].Fails() || (IsServerRequest(old(incoming)[k]) && sendsLeft == 0)
    {
      ghost var events := incoming;
      k := 0;
      assert Answers(configuration, workspaceFolders, events[..0]) == [];
      for i := 0 to 16
        invariant k == i && k <= |events| && incoming == events[k..] && nextId == old(nextId)
        invariant |outbox| + sendsLeft == old(|outbox| + sendsLeft)
        invariant forall j | 0 <= j < k :: events[j].Received?
        invariant ready == ReadyAfter(old(ready), events[..k])
        invariant outbox == old(outbox) + Answers(configuration, workspaceFolders, events[..k])
      {
        if incoming == [] || incoming[0].Fails() { ok := false; return; }
        var event := incoming[0];
        incoming := incoming[1..];
        if event.Idle? { break; }
        ok := Serve(event, old(ready), old(outbox), events, k);
        if !ok { return; }
        k := k + 1;
      }
      ready := NOT_READY;
      ok := true;
    }

    /**
     Waiting ends at the first moment the provider's verdict is due on what the stream has reported;
     requests up to then are answered. It is given up only when the stream or a send fails.
    */
    method WaitForReadiness(provider: string, documents: seq<string>) returns (r: Verdict, ghost k: nat)
      modifies this
      ensures k <= |old(incoming)| && nextId == old(nextId)
      ensures |outbox| + sendsLeft == old(|outbox| + sendsLeft)
      ensures outbox == old(outbox) + Answers(configuration, workspaceFolders, old(incoming)[..k])
      ensures !MustSettle(provider) ==> r == NotRequired && k == 0 && ready == old(ready)
      ensures MustSettle(provider) ==>
                var start := Watching(old(ready), documents);
                && NothingDue(provider, documents, start, old(incoming), k)
                && (r != GivenUp ==> Due(provider, documents, ReadyAfter(start, old(incoming)[..k])) == Some(r))
                && (r == GivenUp ==>
                      k == |old(incoming)| || old(incoming)[k].Fails() || (IsServerRequest(old(incoming)[k]) && sendsLeft == 0))
      ensures r != GivenUp ==> incoming == old(incoming)[k..]
    {
      k := 0;
      ghost var events := incoming;
      assert Answers(configuration, workspaceFolders, events[..0]) == [];
      if !MustSettle(provider) {
        r := NotRequired;
        return;
      }
      ready := Watching(ready, documents);
      ghost var start := ready;
      while true
        invariant k <= |events| && incoming == events[k..] && nextId == old(nextId)
        invariant |outbox| + sendsLeft == old(|outbox| + sendsLeft)
        invariant ready == ReadyAfter(start, events[..k])
        invariant outbox == old(outbox) + Answers(configuration, workspaceFolders, events[..k])
        invariant NothingDue(provider, documents, start, events, k)
        decreases |incoming|
      {
        var due := Due(provider, documents, ready);
        if due.Some? {
          r := due.value;
          return;
        }
        r := GivenUp;
        if incoming == [] || incoming[0].Fails() { return; }
        var event := incoming[0];
        incoming := incoming[1..];
        var ok := Serve(event, start, old(outbox), events, k);
        if !ok { return; }
        k := k + 1;
      }
    }
  }

  lemma AnswersSnoc(configuration: Json, workspaceFolders: Json, events: seq<Event>, k: nat)
    requires k < |events|
    ensures Answers(configuration, workspaceFolders, events[..k + 1]) ==
            Answers(configuration, workspaceFolders, events[..k]) +
            if IsServerRequest(events[k])
            then [AnswerTo(configuration, workspaceFolders, events[k].message, events[k].message.Get("id").value)] else []
  {
    assert events[..k + 1][..k] == events[..k];
  }

  lemma {:induction false} AnswersPrefix(configuration: Json, workspaceFolders: Json, events: seq<Event>, j: nat, k: nat)
    requires j <= k <= |events|
    ensures Answers(configuration, workspaceFolders, events[..j]) <= Answers(configuration, workspaceFolders, events[..k])
    ensures j < k && IsServerRequest(events[j]) ==>
              Answers(configuration, workspaceFolders, events[..j]) < Answers(configuration, workspaceFolders, events[..k])
    decreases k
  {
    if j == k {
    } else {
      var before := Answers(configuration, workspaceFolders, events[..k - 1]);
      AnswersPrefix(configuration, workspaceFolders, events, j, k - 1);
      AnswersSnoc(configuration, workspaceFolders, events, k - 1);
      assert before <= Answers(configuration, workspaceFolders, events[..k - 1 + 1]);
    }
  }

  /** What the configuration holds along the dotted path that an item names; null for no text and for a path that leads nowhere. */
  ghost predicate Configured(configuration: Json, item: Json, value: Json) {
    exists keys ::
      && NamesPath(item, keys)
      && (Reaches(configuration, keys, value) || (value == Null && forall inner :: !Reaches(configuration, keys, inner)))
  }

  ghost predicate NamesPath(item: Json, keys: seq<string>) {
    keys != [] && (forall key | key in keys :: '.' !in key) && item.At("section") == Str(JoinDots(keys))
  }

  lemma SettingConfigured(configuration: Json, item: Json)
    ensures if item.At("section").Str? then Configured(configuration, item, Setting(configuration, item))
            else Setting(configuration, item) == Null
  {
    if item.At("section").Str? {
      var keys := SplitDots(item.At("section").s);
      SplitJoins(item.At("section").s);
      assert NamesPath(item, keys);
      forall inner ensures Descend(configuration, keys) == Some(inner) <==> Reaches(configuration, keys, inner) {
        DescendReaches(configuration, keys, inner);
      }
    }
  }

  ghost predicate ConfiguredEach(configuration: Json, items: seq<Json>, values: seq<Json>) {
    |values| == |items| &&
    forall i | 0 <= i < |items| ::
      if items[i].At("section").Str? then Configured(configuration, items[i], values[i]) else values[i] == Null
  }

  /** What each request of a server is owed; a missing result is a refusal. */
  ghost predicate Owed(configuration: Json, workspaceFolders: Json, m: Json, result: Option<Json>) {
    match CallOf(m)
    case Configuration =>
      var items := m.At("params").At("items");
      && result.Some? && result.value.Arr?
      && ConfiguredEach(configuration, if items.Arr? then items.items else [], result.value.items)
    case WorkspaceFolders => result == Some(workspaceFolders)
    case Bookkeeping => result == Some(Null)
    case ApplyEdit => result.Some? && result.value.Get("applied") == Some(Bool(false))
    case Unsupported => result == None
  }

  lemma SettingsConfigured(configuration: Json, items: Json)
    ensures ConfiguredEach(configuration, if items.Arr? then items.items else [], Settings(configuration, items))
  {
    if items.Arr? {
      forall i | 0 <= i < |items.items|
        ensures if items.items[i].At("section").Str?
                then Configured(configuration, items.items[i], Setting(configuration, items.items[i]))
                else Setting(configuration, items.items[i]) == Null
      {
        SettingConfigured(configuration, items.items[i]);
      }
    }
  }

  lemma ResultIsOwed(configuration: Json, workspaceFolders: Json, m: Json)
    ensures Owed(configuration, workspaceFolders, m, ResultOf(configuration, workspaceFolders, m))
  {
    SettingsConfigured(configuration, m.At("params").At("items"));
  }

  /** A message with the given id that is no request itself, and carries the result or else the error for an unsupported method. */
  predicate Answering(answer: Json, id: Option<Json>, result: Option<Json>) {
    && answer.Get("id") == id && !HasMethod(answer) && answer.Get("result") == result
    && (result.Some? <==> answer.Get("error").None?)
    && (result.None? ==> answer.Get("error").value.Get("code") == Some(Num(-32601)))
  }

  lemma ReplyAnswers(id: Json, result: Option<Json>)
    ensures Answering(Reply(id, result), Some(id), result)
  {
  }

  /** Which method names ask for what. */
  predicate Asks(name: Option<string>, call: ServerCall) {
    && (call.Configuration? <==> name == Some("workspace/configuration"))
    && (call.WorkspaceFolders? <==> name == Some("workspace/workspaceFolders"))
    && (call.Bookkeeping? <==> name == Some("client/registerCapability") || name == Some("client/unregisterCapability")
                               || name == Some("window/workDoneProgress/create"))
    && (call.ApplyEdit? <==> name == Some("workspace/applyEdit"))
  }

  lemma CallAsked(m: Json)
    ensures Asks(MethodName(m), CallOf(m))
  {
    assert |"workspace/configuration"| == 23 && |"workspace/workspaceFolders"| == 26;
    assert |"client/registerCapability"| == 25 && |"client/unregisterCapability"| == 27;
    assert |"window/workDoneProgress/create"| == 30 && |"workspace/applyEdit"| == 19;
  }

  ghost predicate FitAnswer(configuration: Json, workspaceFolders: Json, request: Json, answer: Json) {
    && Asks(MethodName(request), CallOf(request))
    && exists result ::
         Owed(configuration, workspaceFolders, request, result) && Answering(answer, request.Get("id"), result)
  }

  lemma AnswerShape(configuration: Json, workspaceFolders: Json, m: Json)
    requires m.Get("id").Some?
    ensures FitAnswer(configuration, workspaceFolders, m, AnswerTo(configuration, workspaceFolders, m, m.Get("id").value))
  {
    CallAsked(m);
    ResultIsOwed(configuration, workspaceFolders, m);
    ReplyAnswers(m.Get("id").value, ResultOf(configuration, workspaceFolders, m));
  }

  /**
   Every server request is answered once, in order and with its own id: configuration sections with
   what is configured under their dotted paths, workspace folders with the session's own, bookkeeping
   with null, edits with a refusal, and anything else with an error.
  */
  lemma AnswersFitRequests(configuration: Json, workspaceFolders: Json, events: seq<Event>, i: nat)
    requires i < |ServerRequests(events)|
    ensures FitAnswer(configuration, workspaceFolders, ServerRequests(events)[i],
                      Answers(configuration, workspaceFolders, events)[i])
  {
    assert ServerRequests(events)[i] in ServerRequests(events);
    AnswerShape(configuration, workspaceFolders, ServerRequests(events)[i]);
  }

  /** The server requests of a stream are its messages that have both a method and an id, each as often as it occurs. */
  lemma {:induction false} ServerRequestsAreAll(events: seq<Event>, m: Json)
    ensures multiset(ServerRequests(events))[m] == if HasMethod(m) && m.Get("id").Some? then multiset(events)[Received(m)] else 0
  {
    if events == [] {
    } else {
      var n := |events| - 1;
      ServerRequestsAreAll(events[..n], m);
      assert events == events[..n] + [events[n]];
    }
  }

  /** A document counts as diagnosed exactly when a notification of the stream reported it while it was being watched. */
  lemma {:induction false} DiagnosedDocuments(ready: Readiness, events: seq<Event>, uri: string)
    ensures ReadyAfter(ready, events).documents == ready.documents
    ensures uri in ReadyAfter(ready, events).diagnostics <==>
              || uri in ready.diagnostics
              || exists j | 0 <= j < |events| ::
                   IsNotification(events[j]) && Diagnosed(ready.documents, events[j].message) == Some(uri)
  {
    if events == [] {
    } else {
      var n := |events| - 1;
      DiagnosedDocuments(ready, events[..n], uri);
      forall j | 0 <= j < n ensures events[..n][j] == events[j] {
      }
    }
  }

  predicate BusyAt(events: seq<Event>, i: nat)
    requires i < |events|
  {
    IsStatus(events[i]) && Quiescence(events[i].message) == Some(false)
  }

  /** Busy was seen exactly when some server status was not quiescent. */
  lemma {:induction false} BusyWasSeen(ready: Readiness, events: seq<Event>)
    ensures ReadyAfter(ready, events).busySeen <==>
              ready.busySeen || exists j | 0 <= j < |events| :: BusyAt(events, j)
  {
    if events == [] {
    } else {
      var n := |events| - 1;
      BusyWasSeen(ready, events[..n]);
      forall j | 0 <= j < n ensures BusyAt(events[..n], j) == BusyAt(events, j) {
      }
      assert ready.busySeen || BusyAt(events, n) ==> ReadyAfter(ready, events).busySeen;
    }
  }

  /** Quiescence and health are those of the last server status. */
  lemma {:induction false} LastStatusCounts(ready: Readiness, events: seq<Event>, j: nat)
    requires j < |events| && IsStatus(events[j]) && forall i | j < i < |events| :: !IsStatus(events[i])
    ensures Some(ReadyAfter(ready, events).quiescent) == Quiescence(events[j].message)
    ensures ReadyAfter(ready, events).health == HealthOf(events[j].message)
    decreases |events|
  {
    var n := |events| - 1;
    if j == n {
    } else {
      forall i | j < i < n ensures !IsStatus(events[..n][i]) {
        assert events[..n][i] == events[i];
      }
      LastStatusCounts(ready, events[..n], j);
    }
  }

  predicate IsStatus(e: Event) {
    IsNotification(e) && Quiescence(e.message).Some?
  }

  // -------------------------------------------------------------------
  // What a verdict says about the stream
  // -------------------------------------------------------------------

  function Published(uri: string, version: Option<int>, diagnostics: seq<Json>): Json {
    var params := map["uri" := Str(uri), "diagnostics" := Arr(diagnostics)];
    Obj(map["method" := Str("textDocument/publishDiagnostics"),
            "params" := Obj(if version.None? then params else params["version" := Num(version.value)])])
  }

  function Status(quiescent: bool, health: string): Json {
    Obj(map["method" := Str("experimental/serverStatus"),
            "params" := Obj(map["quiescent" := Bool(quiescent), "health" := Str(health)])])
  }

  /** Diagnostics count for a watched document's first version, or for no version at all; a status is read as it is written. */
  lemma NotificationsRead(documents: set<string>, uri: string, version: Option<int>, diagnostics: seq<Json>,
                          quiescent: bool, health: string)
    ensures Diagnosed(documents, Published(uri, version, diagnostics)) ==
            if uri in documents && (version == None || version == Some(1)) then Some(uri) else None
    ensures Quiescence(Status(quiescent, health)) == Some(quiescent) && Diagnosed(documents, Status(quiescent, health)) == None
    ensures HealthOf(Status(quiescent, health)) == Some(health)
    ensures Quiescence(Published(uri, version, diagnostics)) == None
  {
    var m := Published(uri, version, diagnostics);
    assert m.At("params").At("diagnostics") == Arr(diagnostics) && m.At("params").At("uri") == Str(uri);
    var status := Status(quiescent, health);
    assert status.At("params").At("quiescent") == Bool(quiescent) && status.At("params").At("health") == Str(health);
  }

  ghost predicate ReportedFor(documents: set<string>, events: seq<Event>, uri: string) {
    exists j | 0 <= j < |events| :: IsNotification(events[j]) && Diagnosed(documents, events[j].message) == Some(uri)
  }

  /** The last status of the stream is the quiescent one at j. */
  ghost predicate SettledAt(events: seq<Event>, j: nat) {
    && j < |events| && IsStatus(events[j]) && Quiescence(events[j].message) == Some(true)
    && forall i | j < i < |events| :: !IsStatus(events[i])
  }

  /** The provider was busy and its last status is quiescent, with the given health or without it. */
  ghost predicate Settled(events: seq<Event>, healthy: bool) {
    && (exists i | 0 <= i < |events| :: BusyAt(events, i))
    && exists j: nat :: SettledAt(events, j) && (HealthOf(events[j].message) == Some("ok")) == healthy
  }

  /** What the stream must have shown for each verdict. */
  ghost predicate Shown(provider: string, documents: seq<string>, events: seq<Event>, v: Verdict) {
    match v
    case Diagnostics =>
      provider == "clangd" && forall d | d in documents :: ReportedFor(Uris(documents), events, d)
    case HealthyQuiescence => provider == "rust-analyzer" && Settled(events, true)
    case Unhealthy => provider == "rust-analyzer" && Settled(events, false)
    case NotRequired => false
    case GivenUp => false
  }

  lemma {:induction false} NoStatusYet(ready: Readiness, events: seq<Event>)
    requires forall i | 0 <= i < |events| :: !IsStatus(events[i])
    ensures ReadyAfter(ready, events).quiescent == ready.quiescent
  {
    if events == [] {
    } else {
      var n := |events| - 1;
      forall i | 0 <= i < n ensures !IsStatus(events[..n][i]) {
        assert events[..n][i] == events[i];
      }
      NoStatusYet(ready, events[..n]);
    }
  }

  lemma LastStatus(events: seq<Event>) returns (j: int)
    ensures -1 <= j < |events| && (j >= 0 ==> IsStatus(events[j])) && forall i | j < i < |events| :: !IsStatus(events[i])
  {
    j := |events| - 1;
    while j >= 0 && !IsStatus(events[j])
      invariant -1 <= j < |events|
      invariant forall i | j < i < |events| :: !IsStatus(events[i])
    {
      j := j - 1;
    }
  }

  lemma SettledMeans(start: Readiness, events: seq<Event>, healthy: bool)
    requires !start.busySeen && !start.quiescent
    ensures var ready := ReadyAfter(start, events);
            ready.busySeen && ready.quiescent && (ready.health == Some("ok")) == healthy <==> Settled(events, healthy)
  {
    BusyWasSeen(start, events);
    var j := LastStatus(events);
    if j < 0 {
      NoStatusYet(start, events);
    } else {
      LastStatusCounts(start, events, j);
      assert SettledAt(events, j) <==> ReadyAfter(start, events).quiescent;
      forall k: nat | SettledAt(events, k) ensures k == j {
      }
    }
  }

  /** A verdict is due on a stream exactly when the stream has shown what it stands for. */
  lemma VerdictMeans(provider: string, documents: seq<string>, events: seq<Event>, v: Verdict)
    ensures Due(provider, documents, ReadyAfter(Watching(NOT_READY, documents), events)) == Some(v) <==>
              Shown(provider, documents, events, v)
    ensures Shown(provider, documents, events, v) ==> MustSettle(provider)
  {
    var start := Watching(NOT_READY, documents);
    SettledMeans(start, events, true);
    SettledMeans(start, events, false);
    forall d | d in documents
      ensures d in ReadyAfter(start, events).diagnostics <==> ReportedFor(Uris(documents), events, d)
    {
      DiagnosedDocuments(start, events, d);
    }
  }
}
