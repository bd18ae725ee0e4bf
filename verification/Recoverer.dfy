/**
 middleware.go: Recoverer's deferred recovery over a StatusRecorder, and the stack it is documented
 for, Recoverer around Gzip around a handler.
 */
module Recoverer {
  import opened Text
  import opened Header
  import opened ResponseWriter
  import opened Gzip
  import opened FieldList
  import opened GzipModel
  import opened GzipRuns
  import GzipWriter

  // How a handler ends; AbortedHandler is a panic with http.ErrAbortHandler.
  datatype Outcome = Returned | Panicked | AbortedHandler

  // A responder is any use of the writer, ending in a return or a panic.
  datatype Responder = Responder(ops: seq<Op>, panics: bool)

  // hook holds whether the hook panics; no responder is the default, WriteError.
  datatype RecoverConfig = RecoverConfig(hook: Option<bool>, responder: Option<Responder>)

  datatype Effect = LoggedPanic | HookRan | LoggedHookFailure | LoggedResponderFailure

  // An effect, and the response as it stood when the effect took place.
  datatype Event = Event(effect: Effect, at: Under)

  datatype Recovery = Recovery(under: Under, events: seq<Event>, repanics: bool)

  function JSONHeaders(h: Header): Header {
    var h := Set(h, "Content-Type", "application/json");
    if Get(h, "X-Content-Type-Options") == "" then Set(h, "X-Content-Type-Options", "nosniff") else h
  }

  // WriteError with status 500; body is the encoded envelope.
  function RespondError(u: Under, body: string): Under {
    RecWrite(RecWriteHeader(SetHeader(u, JSONHeaders(u.net.header)), 500), body)
  }

  function HookEvents(hook: Option<bool>, u: Under): seq<Event> {
    match hook
    case None => []
    case Some(panics) => if panics then [Event(HookRan, u), Event(LoggedHookFailure, u)] else [Event(HookRan, u)]
  }

  function Respond(cfg: RecoverConfig, u: Under, body: string): Recovery {
    match cfg.responder
    case None => Recovery(RespondError(u, body), [], false)
    case Some(r) =>
      var mid := RecRun(u, r.ops);
      if !r.panics then Recovery(mid, [], false)
      else Recovery(if mid.rec.wrote then mid else RespondError(mid, body), [Event(LoggedResponderFailure, mid)], false)
  }

  function Recover(cfg: RecoverConfig, u: Under, outcome: Outcome, body: string): Recovery {
    match outcome
    case Returned => Recovery(u, [], false)
    case AbortedHandler => Recovery(u, [], true)
    case Panicked =>
      var events := [Event(LoggedPanic, u)] + HookEvents(cfg.hook, u);
      if u.rec.wrote then Recovery(u, events, false)
      else
        var r := Respond(cfg, u, body);
        r.(events := events + r.events)
  }

  // ---------- the deferred recovery ----------

  method Perform(sr: StatusRecorder, op: Op)
    modifies sr, sr.w
    ensures sr.State() == RecStep(old(sr.State()), op)
  {
    match op {
      case Edit(h) => sr.w.SetHeader(h);
      case WriteHeader(code) => sr.WriteHeader(code);
      case Write(p) => sr.Write(p);
      case ReadFrom(p) => var n := sr.ReadFrom(p);
      case Flush => var ok := sr.FlushError();
      case Hijack => var ok := sr.Hijack();
    }
  }

  method PerformAll(sr: StatusRecorder, ops: seq<Op>)
    modifies sr, sr.w
    ensures sr.State() == RecRun(old(sr.State()), ops)
  {
    hide RecStep;
    assert ops[0..] == ops;
    for i := 0 to |ops|
      invariant RecRun(old(sr.State()), ops) == RecRun(sr.State(), ops[i..])
    {
      assert ops[i..][0] == ops[i] && ops[i..][1..] == ops[i + 1..];
      Perform(sr, ops[i]);
    }
  }

  method WriteError(sr: StatusRecorder, body: string)
    modifies sr, sr.w
    ensures sr.State() == RespondError(old(sr.State()), body)
  {
    sr.w.SetHeader(JSONHeaders(sr.w.net.header));
    sr.WriteHeader(500);
    sr.Write(body);
  }

  // writeRecoverResponse, with the responder's panic caught by its own deferred function.
  method WriteRecoverResponse(cfg: RecoverConfig, sr: StatusRecorder, body: string) returns (events: seq<Event>)
    modifies sr, sr.w
    ensures Recovery(sr.State(), events, false) == Respond(cfg, old(sr.State()), body)
  {
    hide RespondError, RecRun;
    events := [];
    match cfg.responder {
      case None => WriteError(sr, body);
      case Some(r) =>
        PerformAll(sr, r.ops);
        if r.panics {
          events := [Event(LoggedResponderFailure, sr.State())];
          var committed := sr.Wrote();
          if !committed {
            WriteError(sr, body);
          }
        }
    }
  }

  // fireHook, with the hook's panic caught by its own deferred function.
  method FireHook(panics: bool, sr: StatusRecorder) returns (events: seq<Event>)
    ensures events == HookEvents(Some(panics), sr.State())
  {
    events := [Event(HookRan, sr.State())];
    if panics {
      events := events + [Event(LoggedHookFailure, sr.State())];
    }
  }

  // recoverPanic
  method RecoverPanic(cfg: RecoverConfig, sr: StatusRecorder, outcome: Outcome, body: string)
    returns (events: seq<Event>, repanics: bool)
    modifies sr, sr.w
    ensures Recovery(sr.State(), events, repanics) == Recover(cfg, old(sr.State()), outcome, body)
  {
    hide Respond;
    match outcome {
      case Returned => return [], false;
      case AbortedHandler => return [], true;
      case Panicked =>
    }
    events, repanics := [Event(LoggedPanic, sr.State())], false;
    if cfg.hook.Some? {
      var hooked := FireHook(cfg.hook.value, sr);
      events := events + hooked;
    }
    var committed := sr.Wrote();
    if !committed {
      var more := WriteRecoverResponse(cfg, sr, body);
      events := events + more;
    }
  }

  // ---------- what recovery promises ----------

  // A response already written to is left exactly as it is. Otherwise a panic is always answered: by
  // the default 500, or by what the responder wrote, or, when the responder panics before writing, by
  // the default 500 after all. The one answer left out is a responder's own empty return.
  lemma PanicIsAnswered(cfg: RecoverConfig, u: Under, body: string)
    requires Recorded(u)
    ensures var r := Recover(cfg, u, Panicked, body).under;
            && (u.rec.wrote ==> r == u)
            && (!u.rec.wrote && (cfg.responder.None? || cfg.responder.value.panics) ==> r.rec.wrote)
            && (!u.rec.wrote && cfg.responder.None? ==> r.net.status == Some(500) && r.net.body == u.net.body + body)
            && (!u.rec.wrote && cfg.responder.Some? && cfg.responder.value.panics ==>
                 var mid := RecRun(u, cfg.responder.value.ops);
                 if mid.rec.wrote then r == mid
                 else r.net.status == Some(500) && r.net.body == mid.net.body + body)
  {
    hide JSONHeaders, RecRun;
    if cfg.responder.Some? { RunRecords(u, cfg.responder.value.ops); }
  }

  // http.ErrAbortHandler passes through untouched: nothing logged, no hook, nothing written.
  lemma AbortPassesThrough(cfg: RecoverConfig, u: Under, body: string)
    ensures Recover(cfg, u, AbortedHandler, body) == Recovery(u, [], true)
    ensures Recover(cfg, u, Returned, body) == Recovery(u, [], false)
    ensures !Recover(cfg, u, Panicked, body).repanics
  {
    hide RespondError, RecRun;
  }

  // The panic is logged, and then the hook run if there is one, before anything of the answer goes
  // out, whether or not the hook panics; a responder's failure is logged after what the responder
  // wrote and before the default that replaces it.
  lemma HookComesFirst(cfg: RecoverConfig, u: Under, body: string)
    ensures var es := Recover(cfg, u, Panicked, body).events;
            && es != [] && es[0] == Event(LoggedPanic, u)
            && (if cfg.hook.Some? then |es| > 1 && es[1] == Event(HookRan, u)
                else forall i :: 0 <= i < |es| ==> es[i].effect != HookRan)
            && (forall i :: 0 <= i < |es| && es[i].effect != LoggedResponderFailure ==> es[i].at == u)
            && ((exists i :: 0 <= i < |es| && es[i].effect == LoggedResponderFailure) <==>
                !u.rec.wrote && cfg.responder.Some? && cfg.responder.value.panics)
            && (forall i :: 0 <= i < |es| && es[i].effect == LoggedResponderFailure ==>
                 i == |es| - 1 && cfg.responder.Some? && es[i].at == RecRun(u, cfg.responder.value.ops))
  {
    hide RespondError, RecRun;
    var es := Recover(cfg, u, Panicked, body).events;
    var head := [Event(LoggedPanic, u)] + HookEvents(cfg.hook, u);
    if !u.rec.wrote && cfg.responder.Some? && cfg.responder.value.panics {
      assert es[|head|].effect == LoggedResponderFailure;
    }
  }

  // ---------- Recoverer(Gzip(handler)) ----------

  // What the request and the configuration decide for one response (section 12.5.3 of RFC 9110); a
  // HEAD response has no body to compress.
  ghost function EnvFor(cfg: Config, codec: Codec, verb: string, acceptEncoding: seq<string>): Env {
    Env(cfg, verb != "HEAD" && AcceptsGzip(Elements(TokenList, Join(acceptEncoding, ","))), codec)
  }

  // The Gzip middleware around a handler that performs the given actions and then returns or panics.
  method ServeGzip(cfg: Config, codec: Codec, pool: GzipWriter.Pool, rw: StatusRecorder, verb: string,
                   acceptEncoding: seq<string>, actions: seq<Action>, panics: bool) returns (g: GzipWriter.GzipWriter)
    requires pool.AtRest(codec)
    modifies rw, rw.w, pool, pool.items
    ensures g.rw == rw && g.env == EnvFor(cfg, codec, verb, acceptEncoding) && pool.AtRest(codec)
    ensures g.Model() == Ended(g.env, Run(g.env, Start(old(rw.w.net), old(rw.State()).rec), actions), panics)
  {
    hide AcceptsGzip, Elements, Run, Ended;
    var accepts := ReadAcceptEncoding(acceptEncoding);
    g := new GzipWriter.GzipWriter(rw, Env(cfg, verb != "HEAD" && accepts, codec), pool);
    GzipWriter.Alone(g, actions);
    GzipWriter.End(g, panics);
  }

  // So over whole runs a response is compressed exactly when the request is no HEAD and offers gzip,
  // the response is a candidate whose status has a body, and minBytes are written before any flush.
  lemma CompressedExactlyWhen(cfg: Config, codec: Codec, verb: string, acceptEncoding: seq<string>, net: Net, rec: Rec,
                              actions: seq<Action>)
    requires Lawful(codec) && cfg.minBytes >= 1 && FreshNet(net) && Unhijacked(net, actions)
    ensures var env := EnvFor(cfg, codec, verb, acceptEncoding); var d := Final(DecisionOf(actions, net.header));
            var seen := Observed(env, Finish(env, Run(env, Start(net, rec), actions)));
            && (seen.compressed <==>
                 && verb != "HEAD" && AcceptsGzip(Elements(TokenList, Join(acceptEncoding, ",")))
                 && Candidate(cfg, d.status, d.header) && CompressesStatus(d.status)
                 && |BeforeFlush(actions)| >= cfg.minBytes)
            && seen.status == Some(d.status) && seen.body == Some(Written(actions))
  {
    hide Run, Finish, Observed, Lawful, Candidate, CompressesStatus, AcceptsGzip, Elements, DecisionOf;
    ResponseIsReference(EnvFor(cfg, codec, verb, acceptEncoding), net, rec, actions);
  }

  // A panic under Recoverer and Gzip. When the response was held back and no 1xx was sent, the client
  // gets exactly one status, 500, with the error body and no byte of the held one; its header carries
  // the handler's Content-Length exactly when the handler set it before anything was decided. When a
  // 1xx was sent, no final status follows it. When the response was not held back, nothing more is
  // written: a compressed stream stays unsealed and does not decode.
  lemma PanicUnderGzip(env: Env, net: Net, actions: seq<Action>, cfg: RecoverConfig, body: string)
    requires Lawful(env.codec) && env.cfg.minBytes >= 1 && FreshNet(net) && Unhijacked(net, actions)
    requires cfg.responder.None?
    ensures var g := Run(env, Start(net, FRESH_REC), actions);
            var n := Recover(cfg, Abort(g).under, Panicked, body).under.net;
            var d := DecisionOf(actions, net.header);
            if HeldBack(env, actions, net.header) then
              if InfosOf(actions, net.header) == [] then
                && n.status == Some(500) && n.body == body && n.infos == []
                && ("Content-Length" in n.sent <==> KeepsLength(d))
                && n.superfluous == 0
              else n.status.None? && n.body == "" && n.infos == InfosOf(actions, net.header)
            else
              n == g.under.net && n.status.Some? && (g.state.Compressed? ==> env.codec.decode(n.body) == None)
  {
    hide Run, Abort, HeldBack, DecisionOf, InfosOf, Written, Lawful, KeepsLength, RespondError;
    var g := Run(env, Start(net, FRESH_REC), actions);
    PanicMeaning(env, net, FRESH_REC, actions);
    GzRunRecords(env, net, FRESH_REC, actions);
    ReachedRecords(Under(net, FRESH_REC), Abort(g).under);
    NotHijacked(env, net, actions);
    ErrorMeaning(Abort(g).under, body);
    assert "" + body == body;
  }

  // Both exceptions happen: a Content-Length set before anything is decided stays on the 500, and
  // after a 103 there is no 500.
  lemma LengthOutlivesPanic(env: Env, net: Net, body: string)
    requires FreshNet(net)
    ensures var g := Run(env, Start(net, FRESH_REC), [EditHeader(map["Content-Length" := ["5"]])]);
            var n := Recover(RecoverConfig(None, None), Abort(g).under, Panicked, body).under.net;
            n.status == Some(500) && n.body == body && "Content-Length" in n.sent && n.sent["Content-Length"] == ["5"]
  {
    hide RespondError, Run, Abort;
    var h: Header := map["Content-Length" := ["5"]];
    EditThenPanic(env, net, h);
    RespondKeeps(SetHeader(Under(net, FRESH_REC), h), body);
    assert "" + body == body;
  }

  lemma EditThenPanic(env: Env, net: Net, h: Header)
    ensures Abort(Run(env, Start(net, FRESH_REC), [EditHeader(h)])).under == SetHeader(Under(net, FRESH_REC), h)
  {
    RunStep(env, Start(net, FRESH_REC), [], EditHeader(h));
    assert [] + [EditHeader(h)] == [EditHeader(h)];
  }

  lemma RespondKeeps(u: Under, body: string)
    requires !Committed(u.net)
    ensures var n := RespondError(u, body).net;
            && n.status == Some(500) && n.body == u.net.body + body
            && ("Content-Length" in u.net.header ==>
                 "Content-Length" in n.sent && n.sent["Content-Length"] == u.net.header["Content-Length"])
  {}

  lemma EarlyHintsLoseTheAnswer(env: Env, net: Net, body: string)
    requires FreshNet(net)
    ensures var g := Run(env, Start(net, FRESH_REC), [CallWriteHeader(103)]);
            var n := Recover(RecoverConfig(None, None), Abort(g).under, Panicked, body).under.net;
            n.status.None? && n.body == "" && n.infos == [103]
  {
    RunStep(env, Start(net, FRESH_REC), [], CallWriteHeader(103));
    assert [] + [CallWriteHeader(103)] == [CallWriteHeader(103)];
  }

  lemma ErrorMeaning(u: Under, body: string)
    requires Recorded(u)
    ensures !u.rec.wrote ==>
              var n := RespondError(u, body).net;
              && n.status == Some(500) && n.body == u.net.body + body && n.infos == u.net.infos == []
              && n.superfluous == u.net.superfluous
              && ("Content-Length" in n.sent <==> "Content-Length" in u.net.header)
    ensures u.rec.wrote <==> Committed(u.net) || u.net.infos != []
  {}

  lemma NotHijacked(env: Env, net: Net, actions: seq<Action>)
    requires Lawful(env.codec) && env.cfg.minBytes >= 1 && FreshNet(net) && Unhijacked(net, actions)
    ensures !Abort(Run(env, Start(net, FRESH_REC), actions)).under.net.hijacked
  {
    hide Run, Lawful;
    RunKeeps(env, net, FRESH_REC, actions);
  }
}
