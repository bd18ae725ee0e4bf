/**
 What Gzip promises over whole runs: the delayed commit answers as a reference that sees the complete
 response before deciding, a panic before the commit leaves a clean wire, and a hijacked response is
 left alone.
 */
module GzipRuns {
  import opened Text
  import opened Header
  import opened Gzip
  import opened ResponseWriter
  import opened GzipModel

  // ---------- the reference ----------

  // The status and header that decide a response: those of the first final WriteHeader, or 200 and
  // the header at the first write, flush or return.
  datatype Decision = Undecided(header: Header) | Decided(status: int, header: Header)

  // One more action after d: how it can decide the response.
  function DecideNext(d: Decision, a: Action): Decision {
    if d.Decided? then d
    else
      match a
      case EditHeader(h) => Undecided(h)
      case CallWriteHeader(code) => if IsInfo(code) then d else Decided(code, d.header)
      case CallHijack => d
      case _ => Decided(200, d.header)
  }

  function DecisionOf(actions: seq<Action>, start: Header): Decision {
    if actions == [] then Undecided(start)
    else
      DecideNext(DecisionOf(actions[..|actions| - 1], start), actions[|actions| - 1])
  }

  function Final(d: Decision): Decision { if d.Decided? then d else Decided(200, d.header) }

  predicate SendsInfo(d: Decision, a: Action) { d.Undecided? && a.CallWriteHeader? && IsInfo(a.code) }

  function InfosOf(actions: seq<Action>, start: Header): seq<int> {
    if actions == [] then []
    else
      var before, last := actions[..|actions| - 1], actions[|actions| - 1];
      InfosOf(before, start) +
      if SendsInfo(DecisionOf(before, start), last) then [last.code] else []
  }

  // Everything written.
  function Written(actions: seq<Action>): string {
    if actions == [] then ""
    else
      var last := actions[|actions| - 1];
      Written(actions[..|actions| - 1]) + if last.CallWrite? then last.p else ""
  }

  predicate Flushed(actions: seq<Action>) { CallFlush in actions }

  // What is written before the first flush.
  function BeforeFlush(actions: seq<Action>): string {
    if actions == [] then ""
    else
      var before, last := actions[..|actions| - 1], actions[|actions| - 1];
      BeforeFlush(before) + if last.CallWrite? && !Flushed(before) then last.p else ""
  }

  // No hijack succeeds: none is asked for, or the connection does not support one.
  predicate Unhijacked(net: Net, actions: seq<Action>) { CallHijack !in actions || !net.canHijack }

  // The header block a decided response is sent with.
  function Block(env: Env, d: Decision, compressed: bool): Header
    requires d.Decided?
  {
    var h := Lines(if Candidate(env.cfg, d.status, d.header) then WithVary(d.header) else d.header);
    if compressed then Marked(h) else h
  }

  // A response as the client sees it: statuses, header block, coding and decoded body.
  datatype Response = Response(
    infos: seq<int>, status: Option<int>, superfluous: nat, block: Header, compressed: bool, body: Option<string>)

  // The reference sees the whole run before it decides.
  function Reference(env: Env, actions: seq<Action>, start: Header): Response {
    var d := Final(DecisionOf(actions, start));
    var compressed := Eligible(env, d.status, d.header) && |BeforeFlush(actions)| >= env.cfg.minBytes;
    Response(InfosOf(actions, start), Some(d.status), 0, Block(env, d, compressed), compressed, Some(Written(actions)))
  }

  // What the wire holds once the handler's run is over.
  function Observed(env: Env, g: Gz): Response {
    var n := g.under.net;
    Response(n.infos, n.status, n.superfluous, Lines(n.sent), g.state.Compressed?,
             if g.state.Compressed? then env.codec.decode(n.body) else Some(n.body))
  }

  // ---------- what every step keeps ----------

  // Nothing has been flushed, so all that was written was written before any flush.
  lemma {:induction false} NothingFlushed(actions: seq<Action>)
    requires !Flushed(actions)
    ensures BeforeFlush(actions) == Written(actions)
  {
    if actions != [] {
      assert CallFlush !in actions[..|actions| - 1];
      NothingFlushed(actions[..|actions| - 1]);
    }
  }

  ghost predicate Keeps(env: Env, g: Gz, done: seq<Action>, start: Header) {
    var n, d := g.under.net, DecisionOf(done, start);
    && n.infos == InfosOf(done, start)
    && !n.hijacked && n.superfluous == 0
    && match g.state
       case Pending =>
         && d == Undecided(n.header) && n.status.None? && n.body == "" && g.buf == ""
         && Written(done) == "" && !Flushed(done)
       case Buffering =>
         && d.Decided? && Eligible(env, d.status, d.header) && n.status.None? && n.body == ""
         && g.status == d.status && g.held == WithVary(d.header)
         && g.buf == Written(done) && |g.buf| < env.cfg.minBytes && !Flushed(done)
       case Identity =>
         && d.Decided? && n.status == Some(d.status) && Lines(n.sent) == Block(env, d, false)
         && n.body == Written(done)
         && !(Eligible(env, d.status, d.header) && (|BeforeFlush(done)| >= env.cfg.minBytes || !Flushed(done)))
       case Compressed =>
         && d.Decided? && n.status == Some(d.status) && Lines(n.sent) == Block(env, d, true)
         && Eligible(env, d.status, d.header) && |BeforeFlush(done)| >= env.cfg.minBytes
         && Open(g.ops) && Input(g.ops) == Written(done) && n.body == env.codec.emit(g.ops)
       case Hijacked => false
  }

  lemma DoneStep(done: seq<Action>, a: Action, start: Header)
    ensures var all, d := done + [a], DecisionOf(done, start);
            && DecisionOf(all, start) == DecideNext(d, a)
            && InfosOf(all, start) ==
                 (if SendsInfo(d, a) then InfosOf(done, start) + [a.code] else InfosOf(done, start))
            && Written(all) == (if a.CallWrite? then Written(done) + a.p else Written(done))
            && BeforeFlush(all) ==
                 (if a.CallWrite? && !Flushed(done) then BeforeFlush(done) + a.p else BeforeFlush(done))
            && (Flushed(all) <==> Flushed(done) || a == CallFlush)
  {
    assert (done + [a])[..|done|] == done;
    assert InfosOf(done, start) + [] == InfosOf(done, start);
    assert Written(done) + "" == Written(done) && BeforeFlush(done) + "" == BeforeFlush(done);
  }

  lemma OpStep(c: Codec, ops: seq<ZOp>, op: ZOp)
    requires Lawful(c) && Open(ops) && op != ZClose
    ensures Open(ops + [op]) && c.emit(ops) + Emitted(c, ops, op) == c.emit(ops + [op])
    ensures Input(ops + [op]) == Input(ops) + if op.ZWrite? then op.p else ""
  {
    assert (ops + [op])[..|ops|] == ops;
    assert c.emit(ops) <= c.emit(ops + [op]);
  }

  // ---------- commits ----------

  // A commit sends the held status and block, once, and nothing else changes.
  lemma SendHeldMeaning(env: Env, g: Gz, compressed: bool, d: Decision)
    requires g.under.net.status.None? && !g.under.net.hijacked && d.Decided? && !IsInfo(d.status)
    requires g.status == d.status && g.held == WithVary(d.header) && Candidate(env.cfg, d.status, d.header)
    ensures var n, n' := g.under.net, SendHeld(g, compressed).under.net;
            && n'.status == Some(d.status) && Lines(n'.sent) == Block(env, d, compressed)
            && n' == n.(header := n'.header, status := n'.status, sent := n'.sent)
    ensures SendHeld(g, compressed) == g.(under := SendHeld(g, compressed).under, held := map[])
  {
    hide Restored, Lines, Marked, WithVary, Trailers, Candidate;
    RestoredLines(g.under.net.header, g.held);
  }

  lemma CommitCompressedMeaning(env: Env, g: Gz, done: seq<Action>, d: Decision)
    requires Lawful(env.codec)
    requires g.state.Buffering? && d.Decided?
    requires g.under.net.status.None? && !g.under.net.hijacked && g.under.net.body == ""
    requires Eligible(env, d.status, d.header) && g.status == d.status && g.held == WithVary(d.header)
    ensures var g' := CommitCompressed(env, g); var n' := g'.under.net;
            && g'.state.Compressed? && n'.status == Some(d.status) && Lines(n'.sent) == Block(env, d, true)
            && Open(g'.ops) && Input(g'.ops) == g.buf && n'.body == env.codec.emit(g'.ops)
            && n'.infos == g.under.net.infos && !n'.hijacked && n'.superfluous == g.under.net.superfluous
  {
    hide SendHeld, Block, Lines, WithVary, Compressible;
    SendHeldMeaning(env, g.(state := Compressed), true, d);
    OpStep(env.codec, [], ZWrite(g.buf));
    assert [] + [ZWrite(g.buf)] == [ZWrite(g.buf)];
    assert Input([]) + g.buf == g.buf;
    assert "" + Emitted(env.codec, [], ZWrite(g.buf)) == Emitted(env.codec, [], ZWrite(g.buf));
  }

  lemma CommitIdentityMeaning(env: Env, g: Gz, d: Decision)
    requires g.state.Buffering? && d.Decided?
    requires g.under.net.status.None? && !g.under.net.hijacked && g.under.net.body == ""
    requires Eligible(env, d.status, d.header) && g.status == d.status && g.held == WithVary(d.header)
    ensures var g' := CommitIdentity(g); var n' := g'.under.net;
            && g'.state.Identity? && n'.status == Some(d.status) && Lines(n'.sent) == Block(env, d, false)
            && n'.body == g.buf && n'.infos == g.under.net.infos && !n'.hijacked
            && n'.superfluous == g.under.net.superfluous
  {
    hide SendHeld, Block, Lines, WithVary, Compressible;
    SendHeldMeaning(env, g.(state := Identity), false, d);
    assert "" + g.buf == g.buf;
  }

  // ---------- one step ----------

  // What is kept depends on the run only through what it decided, sent and wrote.
  lemma SameRunKeeps(env: Env, g: Gz, a: seq<Action>, b: seq<Action>, start: Header)
    requires Keeps(env, g, a, start)
    requires DecisionOf(a, start) == DecisionOf(b, start) && InfosOf(a, start) == InfosOf(b, start)
    requires Written(a) == Written(b) && BeforeFlush(a) == BeforeFlush(b) && Flushed(a) == Flushed(b)
    ensures Keeps(env, g, b, start)
  {
    hide DecisionOf, InfosOf, Written, BeforeFlush, Flushed, Input, Block, Eligible, WithVary, Lines;
  }

  lemma DecidingKeeps(env: Env, g: Gz, done: seq<Action>, start: Header, code: int)
    requires env.cfg.minBytes >= 1 && Keeps(env, g, done, start) && g.state.Pending? && !IsInfo(code)
    ensures Keeps(env, GzWriteHeader(env, g, code), done + [CallWriteHeader(code)], start)
  {
    hide Lines, WithVary, Compressible, CompressesStatus, DecisionOf, InfosOf, Written, BeforeFlush, Input, Marked, Get;
    DoneStep(done, CallWriteHeader(code), start);
    NothingFlushed(done);
  }

  lemma InfoKeeps(env: Env, g: Gz, done: seq<Action>, start: Header, code: int)
    requires Keeps(env, g, done, start) && g.state.Pending? && IsInfo(code)
    ensures Keeps(env, GzWriteHeader(env, g, code), done + [CallWriteHeader(code)], start)
  {
    hide DecisionOf, InfosOf, Written, BeforeFlush;
    DoneStep(done, CallWriteHeader(code), start);
  }

  lemma WriteHeaderKeeps(env: Env, g: Gz, done: seq<Action>, start: Header, code: int)
    requires env.cfg.minBytes >= 1 && Keeps(env, g, done, start)
    ensures Keeps(env, GzWriteHeader(env, g, code), done + [CallWriteHeader(code)], start)
  {
    if !g.state.Pending? {
      LaterWriteHeader(env, g, done, start, code);
    } else if IsInfo(code) {
      InfoKeeps(env, g, done, start, code);
    } else {
      DecidingKeeps(env, g, done, start, code);
    }
  }

  lemma LaterWriteHeader(env: Env, g: Gz, done: seq<Action>, start: Header, code: int)
    requires Keeps(env, g, done, start) && !g.state.Pending?
    ensures GzWriteHeader(env, g, code) == g && Keeps(env, g, done + [CallWriteHeader(code)], start)
  {
    hide DecisionOf, InfosOf, Written, BeforeFlush, Flushed, Eligible, Block, Input;
    DoneStep(done, CallWriteHeader(code), start);
    SameRunKeeps(env, g, done, done + [CallWriteHeader(code)], start);
  }

  // The implicit 200 before a write, a flush or the return decides as that action does.
  lemma ImplicitKeeps(env: Env, g: Gz, done: seq<Action>, start: Header)
    requires env.cfg.minBytes >= 1 && Keeps(env, g, done, start)
    ensures Keeps(env, ImplicitStatus(env, g), done + [CallWriteHeader(200)], start)
    ensures !ImplicitStatus(env, g).state.Pending?
    ensures var d, d' := DecisionOf(done, start), DecisionOf(done + [CallWriteHeader(200)], start);
            d' == Final(d) && InfosOf(done + [CallWriteHeader(200)], start) == InfosOf(done, start)
            && Written(done + [CallWriteHeader(200)]) == Written(done)
            && BeforeFlush(done + [CallWriteHeader(200)]) == BeforeFlush(done)
            && Flushed(done + [CallWriteHeader(200)]) == Flushed(done)
  {
    hide Lines, WithVary, Compressible, CompressesStatus, DecisionOf, InfosOf, Written, BeforeFlush, Input, Marked, Get;
    DoneStep(done, CallWriteHeader(200), start);
    WriteHeaderKeeps(env, g, done, start, 200);
  }

  // A write on a committed response adds to its body and to nothing else.
  lemma WriteBelow(u: Under, p: string)
    requires u.net.status.Some? && !u.net.hijacked
    ensures RecWrite(u, p).net == u.net.(body := u.net.body + p)
  {}

  lemma CompressedWriteKeeps(env: Env, g: Gz, done: seq<Action>, start: Header, p: string)
    requires Lawful(env.codec) && Keeps(env, g, done, start) && g.state.Compressed?
    ensures Keeps(env, ZDo(env, g, ZWrite(p)), done + [CallWrite(p)], start)
  {
    hide Lines, WithVary, Eligible, DecisionOf, InfosOf, Written, BeforeFlush, Input, Block, RecWrite, Flushed, Emitted;
    DoneStep(done, CallWrite(p), start);
    OpStep(env.codec, g.ops, ZWrite(p));
    WriteBelow(g.under, Emitted(env.codec, g.ops, ZWrite(p)));
  }

  // A held-back response reaches the size: the commit, then the write, which is compressed.
  lemma ReachingSizeKeeps(env: Env, g: Gz, done: seq<Action>, start: Header, p: string)
    requires Lawful(env.codec) && Keeps(env, g, done, start) && g.state.Buffering?
    requires |g.buf| + |p| >= env.cfg.minBytes
    ensures Keeps(env, ZDo(env, CommitCompressed(env, g), ZWrite(p)), done + [CallWrite(p)], start)
  {
    hide Lines, WithVary, Compressible, CompressesStatus, DecisionOf, InfosOf, Written, BeforeFlush, Input, Get, Block,
         RecWrite, Flushed, CommitCompressed, Emitted;
    DoneStep(done, CallWrite(p), start);
    NothingFlushed(done);
    CommitCompressedMeaning(env, g, done, DecisionOf(done, start));
    var c := CommitCompressed(env, g);
    OpStep(env.codec, c.ops, ZWrite(p));
    WriteBelow(c.under, Emitted(env.codec, c.ops, ZWrite(p)));
  }

  lemma PlainWriteKeeps(env: Env, g: Gz, done: seq<Action>, start: Header, p: string)
    requires Keeps(env, g, done, start)
    requires g.state.Identity? || (g.state.Buffering? && |g.buf| + |p| < env.cfg.minBytes)
    ensures Keeps(env, GzWrite(env, g, p), done + [CallWrite(p)], start)
  {
    hide Lines, WithVary, Eligible, DecisionOf, InfosOf, Written, BeforeFlush, Input, Block, RecWrite, Flushed;
    DoneStep(done, CallWrite(p), start);
    if g.state.Identity? {
      WriteBelow(g.under, p);
    }
    if !Flushed(done) { NothingFlushed(done); }
  }

  lemma WriteKeeps(env: Env, g: Gz, done: seq<Action>, start: Header, p: string)
    requires Lawful(env.codec) && env.cfg.minBytes >= 1 && Keeps(env, g, done, start)
    ensures Keeps(env, GzWrite(env, g, p), done + [CallWrite(p)], start)
  {
    hide Lawful, Keeps, DecisionOf, InfosOf, Written, BeforeFlush, Flushed, GzWriteHeader, CommitCompressed, ZDo,
         RecWrite;
    var done1, g1 := done + [CallWriteHeader(200)], ImplicitStatus(env, g);
    ImplicitKeeps(env, g, done, start);
    NeverHijacked(env, g1, done1, start);
    match g1.state {
      case Compressed => CompressedWriteKeeps(env, g1, done1, start, p);
      case Buffering =>
        if |g1.buf| + |p| >= env.cfg.minBytes {
          ReachingSizeKeeps(env, g1, done1, start, p);
        } else {
          PlainWriteKeeps(env, g1, done1, start, p);
        }
      case _ => PlainWriteKeeps(env, g1, done1, start, p);
    }
    DoneStep(done1, CallWrite(p), start);
    DoneStep(done, CallWrite(p), start);
    CallDecides(DecisionOf(done, start), p);
    SameRunKeeps(env, GzWrite(env, g, p), done1 + [CallWrite(p)], done + [CallWrite(p)], start);
  }

  lemma NeverHijacked(env: Env, g: Gz, done: seq<Action>, start: Header)
    requires Keeps(env, g, done, start)
    ensures !g.state.Hijacked?
  {}

  // A write or a flush decides as the implicit 200 before it does.
  lemma CallDecides(d: Decision, p: string)
    ensures DecideNext(d, CallWrite(p)) == Final(d) == DecideNext(Final(d), CallWrite(p))
    ensures DecideNext(d, CallFlush) == Final(d) == DecideNext(Final(d), CallFlush)
  {}

  // A supported flush below a committed response only notes where it happened.
  lemma FlushBelow(u: Under)
    requires u.net.status.Some? && !u.net.hijacked
    ensures var n := RecFlush(u).net; n == u.net.(flushes := n.flushes)
  {}

  lemma FlushDecidedKeeps(env: Env, g: Gz, done: seq<Action>, start: Header)
    requires Lawful(env.codec) && Keeps(env, g, done, start) && !g.state.Pending?
    ensures Keeps(env, GzFlush(env, g), done + [CallFlush], start)
  {
    hide Lines, WithVary, Compressible, CompressesStatus, DecisionOf, InfosOf, Written, BeforeFlush, Input, Marked, Get,
         SendHeld, Block, CommitIdentity, RecFlush, Flushed;
    DoneStep(done, CallFlush, start);
    match g.state {
      case Buffering =>
        NothingFlushed(done);
        CommitIdentityMeaning(env, g, DecisionOf(done, start));
        FlushBelow(CommitIdentity(g).under);
      case Compressed =>
        OpStep(env.codec, g.ops, ZFlush);
        FlushBelow(ZDo(env, g, ZFlush).under);
      case Identity => FlushBelow(g.under);
    }
  }

  lemma FlushKeeps(env: Env, g: Gz, done: seq<Action>, start: Header)
    requires Lawful(env.codec) && env.cfg.minBytes >= 1 && Keeps(env, g, done, start)
    ensures Keeps(env, GzFlush(env, g), done + [CallFlush], start)
  {
    hide Lawful, Keeps, DecisionOf, InfosOf, Written, BeforeFlush, Flushed, GzWriteHeader;
    var done1, g1 := done + [CallWriteHeader(200)], ImplicitStatus(env, g);
    ImplicitKeeps(env, g, done, start);
    FlushDecidedKeeps(env, g1, done1, start);
    DoneStep(done1, CallFlush, start);
    DoneStep(done, CallFlush, start);
    CallDecides(DecisionOf(done, start), "");
    SameRunKeeps(env, GzFlush(env, g), done1 + [CallFlush], done + [CallFlush], start);
  }

  lemma EditKeeps(env: Env, g: Gz, done: seq<Action>, start: Header, h: Header)
    requires env.cfg.minBytes >= 1 && Keeps(env, g, done, start)
    ensures Keeps(env, Step(env, g, EditHeader(h)), done + [EditHeader(h)], start)
  {
    hide Lines, WithVary, Compressible, CompressesStatus, DecisionOf, InfosOf, Written, BeforeFlush, Input, Marked, Get;
    DoneStep(done, EditHeader(h), start);
  }

  lemma FailedHijackKeeps(env: Env, g: Gz, done: seq<Action>, start: Header)
    requires Keeps(env, g, done, start) && !g.under.net.canHijack
    ensures Keeps(env, GzHijack(g), done + [CallHijack], start)
  {
    hide Lines, WithVary, Compressible, CompressesStatus, DecisionOf, InfosOf, Written, BeforeFlush, Input, Marked, Get;
    DoneStep(done, CallHijack, start);
  }

  function Caps(u: Under): (bool, bool) { (u.net.canHijack, u.net.canFlush) }

  // What the recorder's calls leave alone: the live header map and what the connection supports.
  lemma RecFrame()
    ensures forall u: Under, h: Header :: Caps(SetHeader(u, h)) == Caps(u) && SetHeader(u, h).net.header == h
    ensures forall u: Under, c: int :: Caps(RecWriteHeader(u, c)) == Caps(u)
                                                  && RecWriteHeader(u, c).net.header == u.net.header
    ensures forall u: Under, p: string :: Caps(RecWrite(u, p)) == Caps(u) && RecWrite(u, p).net.header == u.net.header
    ensures forall u: Under :: Caps(RecFlush(u)) == Caps(u) && RecFlush(u).net.header == u.net.header
    ensures forall u: Under :: Caps(RecHijack(u)) == Caps(u) && RecHijack(u).net.header == u.net.header
  {}

  lemma CommitsKeepCaps(env: Env, g: Gz, op: ZOp)
    ensures Caps(CommitCompressed(env, g).under) == Caps(g.under)
    ensures Caps(CommitIdentity(g).under) == Caps(g.under)
    ensures Caps(ZDo(env, g, op).under) == Caps(g.under)
  {
    hide Marked, Restored, Trailers, Emitted, SetHeader, RecWriteHeader, RecWrite, Caps;
    RecFrame();
  }

  lemma StepKeepsCaps(env: Env, g: Gz, a: Action)
    ensures Caps(Step(env, g, a).under) == Caps(g.under)
  {
    hide WithVary, Candidate, Eligible, CommitCompressed, CommitIdentity, ZDo;
    hide SetHeader, RecWriteHeader, RecWrite, RecFlush, RecHijack, Caps;
    RecFrame();
    var g1 := ImplicitStatus(env, g);
    CommitsKeepCaps(env, g1, ZFlush);
    match a {
      case CallWrite(p) =>
        CommitsKeepCaps(env, g1, ZWrite(p));
        CommitsKeepCaps(env, CommitCompressed(env, g1), ZWrite(p));
      case _ =>
    }
  }

  lemma {:induction false} CapsKept(env: Env, g: Gz, actions: seq<Action>)
    ensures Run(env, g, actions).under.net.canHijack == g.under.net.canHijack
    ensures Run(env, g, actions).under.net.canFlush == g.under.net.canFlush
  {
    hide Step;
    if actions != [] {
      CapsKept(env, g, actions[..|actions| - 1]);
      StepKeepsCaps(env, Run(env, g, actions[..|actions| - 1]), actions[|actions| - 1]);
    }
  }

  lemma {:induction false} RunKeeps(env: Env, net: Net, rec: Rec, actions: seq<Action>)
    requires Lawful(env.codec) && env.cfg.minBytes >= 1 && FreshNet(net) && Unhijacked(net, actions)
    ensures Keeps(env, Run(env, Start(net, rec), actions), actions, net.header)
  {
    hide Keeps, Lawful, GzWrite, GzFlush, GzWriteHeader;
    if actions == [] {
      StartKeeps(env, net, rec);
    } else {
      var done, a := actions[..|actions| - 1], actions[|actions| - 1];
      assert a in actions && done + [a] == actions;
      RunKeeps(env, net, rec, done);
      var g := Run(env, Start(net, rec), done);
      match a {
        case EditHeader(h) => EditKeeps(env, g, done, net.header, h);
        case CallWriteHeader(code) => WriteHeaderKeeps(env, g, done, net.header, code);
        case CallWrite(p) => WriteKeeps(env, g, done, net.header, p);
        case CallFlush => FlushKeeps(env, g, done, net.header);
        case CallHijack =>
          CapsKept(env, Start(net, rec), done);
          FailedHijackKeeps(env, g, done, net.header);
      }
    }
  }

  lemma StartKeeps(env: Env, net: Net, rec: Rec)
    requires FreshNet(net)
    ensures Keeps(env, Start(net, rec), [], net.header)
  {}

  // ---------- the response ----------

  lemma FinishMeaning(env: Env, g: Gz, done: seq<Action>, start: Header)
    requires Lawful(env.codec) && env.cfg.minBytes >= 1 && Keeps(env, g, done, start)
    ensures Observed(env, Finish(env, g)) == Reference(env, done, start)
  {
    hide Lines, WithVary, Compressible, CompressesStatus, DecisionOf, InfosOf, Written, BeforeFlush, Input, Marked, Get,
         SendHeld, Block, CommitIdentity;
    ImplicitKeeps(env, g, done, start);
    var g1 := ImplicitStatus(env, g);
    var d := Final(DecisionOf(done, start));
    match g1.state {
      case Buffering =>
        NothingFlushed(done);
        CommitIdentityMeaning(env, g1, d);
      case Compressed => SealMeaning(env, g1);
      case Identity => if !Flushed(done) { NothingFlushed(done); }
    }
  }

  lemma SealMeaning(env: Env, g: Gz)
    requires Lawful(env.codec) && g.state.Compressed? && !g.under.net.hijacked && g.under.net.status.Some?
    requires Open(g.ops) && g.under.net.body == env.codec.emit(g.ops)
    ensures var n' := Finish(env, g).under.net;
            n' == g.under.net.(body := n'.body) && env.codec.decode(n'.body) == Some(Input(g.ops))
            && Finish(env, g).state.Compressed?
  {
    hide Input;
    assert env.codec.emit(g.ops) <= env.codec.emit(g.ops + [ZClose]);
    assert env.codec.emit(g.ops) + Emitted(env.codec, g.ops, ZClose) == env.codec.emit(g.ops + [ZClose]);
  }

  // Whatever the handler does short of a hijack, the client sees the reference's response: one final
  // status, the first one given, and no superfluous WriteHeader below; the header block as it stood
  // then, with Vary, and marked exactly when compressed; compression exactly when the response is
  // eligible and at least minBytes are written before any flush; and a body that decodes to exactly
  // the concatenation of all writes.
  lemma ResponseIsReference(env: Env, net: Net, rec: Rec, actions: seq<Action>)
    requires Lawful(env.codec) && env.cfg.minBytes >= 1 && FreshNet(net) && Unhijacked(net, actions)
    ensures Observed(env, Finish(env, Run(env, Start(net, rec), actions))) == Reference(env, actions, net.header)
  {
    hide *;
    RunKeeps(env, net, rec, actions);
    FinishMeaning(env, Run(env, Start(net, rec), actions), actions, net.header);
  }

  // So two handlers that decide alike and write the same bytes, in any chunks, get the same response.
  lemma ChunkingDoesNotShow(env: Env, net: Net, rec: Rec, a: seq<Action>, b: seq<Action>)
    requires Lawful(env.codec) && env.cfg.minBytes >= 1 && FreshNet(net) && Unhijacked(net, a) && Unhijacked(net, b)
    requires Final(DecisionOf(a, net.header)) == Final(DecisionOf(b, net.header))
    requires InfosOf(a, net.header) == InfosOf(b, net.header)
    requires Written(a) == Written(b) && |BeforeFlush(a)| == |BeforeFlush(b)|
    ensures Observed(env, Finish(env, Run(env, Start(net, rec), a))) ==
            Observed(env, Finish(env, Run(env, Start(net, rec), b)))
  {
    hide Run, Finish, Observed, DecisionOf, InfosOf, Written, BeforeFlush;
    ResponseIsReference(env, net, rec, a);
    ResponseIsReference(env, net, rec, b);
  }

  // The header block tells the client which coding it got, and every candidate response varies on it.
  lemma BlockSaysCoding(env: Env, d: Decision, compressed: bool)
    requires d.Decided? && Candidate(env.cfg, d.status, d.header)
    ensures Get(Block(env, d, compressed), "Content-Encoding") == if compressed then "gzip" else ""
    ensures VariesOnCoding(Block(env, d, compressed))
  {
    hide VariesOnCoding, Compressible, IsTrailerKey, WithVary, Marked, Lines, Get, Values;
    var h := WithVary(d.header);
    PlainKeys();
    VaryMeaning(d.header);
    SameUnderVary(d.header, h);
    LinesKeep(h, "Content-Encoding");
    LinesKeep(h, "Vary");
    SameVary(h, Lines(h));
    MarkedKeepsVary(Lines(h));
    SameVary(Lines(h), Marked(Lines(h)));
  }

  lemma SameUnderVary(a: Header, b: Header)
    requires forall k :: k != "Vary" ==> (k in b <==> k in a) && (k in a ==> b[k] == a[k])
    ensures Get(b, "Content-Encoding") == Get(a, "Content-Encoding")
  {}

  lemma LinesKeep(h: Header, k: string)
    requires !IsTrailerKey(k)
    ensures Get(Lines(h), k) == Get(h, k) && Values(Lines(h), k) == Values(h, k)
  {
    hide IsTrailerKey;
  }

  lemma MarkedKeepsVary(h: Header)
    ensures Values(Marked(h), "Vary") == Values(h, "Vary") && Get(Marked(h), "Content-Encoding") == "gzip"
  {
    hide Marked;
    MarkedMeaning(h);
  }

  lemma SameVary(a: Header, b: Header)
    requires Values(a, "Vary") == Values(b, "Vary")
    ensures VariesOnCoding(a) == VariesOnCoding(b)
  {}

  // ---------- trailers ----------

  // A commit keeps the trailers set before it: the values of the trailers the held header declares,
  // and every TrailerPrefix key.
  lemma CommitKeepsTrailers(env: Env, g: Gz, a: Action, k: string)
    requires g.state.Buffering? && !Step(env, g, a).state.Buffering? && !a.CallHijack?
    requires k in g.under.net.header && (k in Declared(g.held) || IsTrailerKey(k))
    ensures k in Step(env, g, a).under.net.header && Step(env, g, a).under.net.header[k] == g.under.net.header[k]
  {
    hide Declared, IsTrailerKey, Emitted, SendHeld, SetHeader, RecWriteHeader, RecWrite, RecFlush, RecHijack;
    RecFrame();
    SendHeldTrailers(g.(state := Compressed), true, k);
    SendHeldTrailers(g.(state := Identity), false, k);
  }

  lemma FinishKeepsTrailers(env: Env, g: Gz, k: string)
    requires g.state.Buffering?
    requires k in g.under.net.header && (k in Declared(g.held) || IsTrailerKey(k))
    ensures k in Finish(env, g).under.net.header && Finish(env, g).under.net.header[k] == g.under.net.header[k]
  {
    hide Declared, IsTrailerKey, Emitted, SendHeld, SetHeader, RecWriteHeader, RecWrite, RecFlush, RecHijack;
    RecFrame();
    SendHeldTrailers(g.(state := Identity), false, k);
  }

  lemma SendHeldTrailers(g: Gz, compressed: bool, k: string)
    requires k in g.under.net.header && (k in Declared(g.held) || IsTrailerKey(k))
    ensures var h' := SendHeld(g, compressed).under.net.header;
            k in h' && h'[k] == g.under.net.header[k]
  {
    hide Declared, IsTrailerKey, Marked, Restored, SetHeader, RecWriteHeader;
    RecFrame();
    if IsTrailerKey(k) { RestoredKeepsPrefix(g.under.net.header, g.held, k); }
  }

  lemma RestoredKeepsPrefix(h: Header, held: Header, k: string)
    requires k in h && IsTrailerKey(k)
    ensures k in Restored(h, held) && Restored(h, held)[k] == h[k]
    ensures k in Marked(Restored(h, held)) && Marked(Restored(h, held))[k] == h[k]
  {
    hide IsTrailerKey, Marked;
    PlainKeys();
    MarkedMeaning(Restored(h, held));
  }

  // The header map as the handler last set it.
  function LastHeader(actions: seq<Action>, start: Header): Header {
    if actions == [] then start
    else if actions[|actions| - 1].EditHeader? then actions[|actions| - 1].h
    else LastHeader(actions[..|actions| - 1], start)
  }

  ghost predicate AgreeBut(a: Header, b: Header, key: string) {
    forall k :: k != key ==> (k in a <==> k in b) && (k in b ==> a[k] == b[k])
  }

  // h holds, for a response decided with the header decided, the trailers last holds: the declared
  // ones last has, and exactly last's TrailerPrefix keys.
  ghost predicate HoldsTrailers(h: Header, last: Header, decided: Header) {
    && (forall k :: k in last && k in Declared(decided) && k != "Vary" ==> k in h && h[k] == last[k])
    && (forall k :: IsTrailerKey(k) ==> (k in h <==> k in last) && (k in last ==> h[k] == last[k]))
  }

  // What every step keeps of the live header map.
  ghost predicate KeepsTrailers(g: Gz, done: seq<Action>, start: Header) {
    var h, last := g.under.net.header, LastHeader(done, start);
    if g.state.Pending? || g.state.Buffering? then AgreeBut(h, last, "Vary")
    else HoldsTrailers(h, last, DecisionOf(done, start).header)
  }

  lemma AgreeHolds(h: Header, last: Header, decided: Header)
    requires AgreeBut(h, last, "Vary")
    ensures HoldsTrailers(h, last, decided)
  {
    hide IsTrailerKey, Declared;
    PlainKeys();
  }

  // A commit of what was held: the declared trailers' values are put back and the prefixed ones stay.
  lemma SendHeldHolds(g: Gz, compressed: bool, last: Header, decided: Header)
    requires AgreeBut(g.under.net.header, last, "Vary") && g.held == WithVary(decided)
    ensures HoldsTrailers(SendHeld(g, compressed).under.net.header, last, decided)
  {
    hide IsTrailerKey, Declared, Marked, Restored, SetHeader, RecWriteHeader, WithVary;
    RecFrame();
    var h := g.under.net.header;
    var block := Restored(h, g.held);
    SameDeclared(decided);
    forall k | IsTrailerKey(k)
      ensures var h' := SendHeld(g, compressed).under.net.header;
              (k in h' <==> k in last) && (k in last ==> h'[k] == last[k])
    {
      PrefixKeptExactly(h, g.held, k);
      PlainKeys();
    }
  }

  lemma SameDeclared(h: Header)
    ensures Declared(WithVary(h)) == Declared(h)
  {
    hide VariesOnCoding, CanonicalKey;
  }

  lemma PrefixKeptExactly(h: Header, held: Header, k: string)
    requires IsTrailerKey(k)
    ensures k in Restored(h, held) <==> k in h
    ensures k in Marked(Restored(h, held)) <==> k in h
    ensures k in h ==> Restored(h, held)[k] == h[k] && Marked(Restored(h, held))[k] == h[k]
  {
    hide IsTrailerKey, Marked;
    PlainKeys();
    MarkedMeaning(Restored(h, held));
  }

  lemma CommitsHold(env: Env, g: Gz, last: Header, decided: Header, op: ZOp)
    requires AgreeBut(g.under.net.header, last, "Vary") && g.held == WithVary(decided)
    ensures HoldsTrailers(CommitIdentity(g).under.net.header, last, decided)
    ensures HoldsTrailers(CommitCompressed(env, g).under.net.header, last, decided)
    ensures ZDo(env, g, op).under.net.header == g.under.net.header
  {
    hide HoldsTrailers, SendHeld, SetHeader, RecWriteHeader, RecWrite, Emitted, WithVary;
    RecFrame();
    SendHeldHolds(g.(state := Identity), false, last, decided);
    SendHeldHolds(g.(state := Compressed), true, last, decided);
  }

  // Deciding the response changes nothing of the header but Vary.
  lemma DecideAgrees(env: Env, g: Gz, code: int, last: Header)
    requires AgreeBut(g.under.net.header, last, "Vary") && g.state.Pending?
    ensures AgreeBut(GzWriteHeader(env, g, code).under.net.header, last, "Vary")
  {
    hide VariesOnCoding, Candidate, Eligible, RecWriteHeader;
    RecFrame();
  }

  lemma LastHeaderStep(done: seq<Action>, a: Action, start: Header)
    ensures LastHeader(done + [a], start) == if a.EditHeader? then a.h else LastHeader(done, start)
  {
    assert (done + [a])[..|done|] == done;
  }

  lemma WriteHeaderKeepsTrailers(env: Env, g: Gz, done: seq<Action>, start: Header, code: int)
    requires Keeps(env, g, done, start) && KeepsTrailers(g, done, start)
    ensures KeepsTrailers(GzWriteHeader(env, g, code), done + [CallWriteHeader(code)], start)
  {
    hide Keeps, AgreeBut, HoldsTrailers, RecWriteHeader, WithVary, Candidate, Eligible;
    DoneStep(done, CallWriteHeader(code), start);
    LastHeaderStep(done, CallWriteHeader(code), start);
    RecFrame();
    var last := LastHeader(done, start);
    if g.state.Pending? {
      DecideAgrees(env, g, code, last);
      AgreeHolds(GzWriteHeader(env, g, code).under.net.header, last,
                 DecisionOf(done + [CallWriteHeader(code)], start).header);
    } else {
      DecidedAt(env, g, done, start);
    }
  }

  lemma DecidedAt(env: Env, g: Gz, done: seq<Action>, start: Header)
    requires Keeps(env, g, done, start) && !g.state.Pending?
    ensures DecisionOf(done, start).Decided?
    ensures g.state.Buffering? ==> g.held == WithVary(DecisionOf(done, start).header)
  {}

  // The implicit 200, a write, a flush or the return, on a response that is decided.
  lemma DecidedKeepsTrailers(env: Env, g: Gz, done: seq<Action>, start: Header, p: string)
    requires Keeps(env, g, done, start) && KeepsTrailers(g, done, start) && !g.state.Pending? && !g.state.Hijacked?
    ensures KeepsTrailers(GzWrite(env, g, p), done, start) && KeepsTrailers(GzFlush(env, g), done, start)
    ensures HoldsTrailers(Finish(env, g).under.net.header, LastHeader(done, start), DecisionOf(done, start).header)
  {
    hide Keeps, AgreeBut, HoldsTrailers, RecWrite, RecFlush, WithVary, CommitIdentity, CommitCompressed, ZDo;
    DecidedAt(env, g, done, start);
    RecFrame();
    var d, last := DecisionOf(done, start), LastHeader(done, start);
    if g.state.Buffering? {
      CommitsHold(env, g, last, d.header, ZFlush);
      CommitStates(env, g);
    }
    ZDoFrame(env, g, ZFlush);
    ZDoFrame(env, g, ZClose);
    ZDoFrame(env, g, ZWrite(p));
    ZDoFrame(env, CommitCompressed(env, g), ZWrite(p));
  }

  lemma CommitStates(env: Env, g: Gz)
    ensures CommitIdentity(g).state.Identity? && CommitCompressed(env, g).state.Compressed?
  {}

  lemma ZDoFrame(env: Env, g: Gz, op: ZOp)
    ensures ZDo(env, g, op).under.net.header == g.under.net.header && ZDo(env, g, op).state == g.state
  {
    hide Emitted;
  }

  lemma StepKeepsTrailers(env: Env, g: Gz, done: seq<Action>, start: Header, a: Action)
    requires env.cfg.minBytes >= 1 && Keeps(env, g, done, start) && KeepsTrailers(g, done, start)
    requires a.CallHijack? ==> !g.under.net.canHijack
    ensures KeepsTrailers(Step(env, g, a), done + [a], start)
  {
    hide Keeps, KeepsTrailers, GzWrite, GzFlush, GzWriteHeader;
    match a {
      case EditHeader(h) => EditKeepsTrailers(env, g, done, start, h);
      case CallWriteHeader(code) => WriteHeaderKeepsTrailers(env, g, done, start, code);
      case CallWrite(p) => WriteOrFlushKeepsTrailers(env, g, done, start, p);
      case CallFlush => WriteOrFlushKeepsTrailers(env, g, done, start, "");
      case CallHijack => SameTrailers(g, GzHijack(g), done, done + [a], start);
    }
  }

  lemma EditKeepsTrailers(env: Env, g: Gz, done: seq<Action>, start: Header, h: Header)
    requires KeepsTrailers(g, done, start)
    ensures KeepsTrailers(Step(env, g, EditHeader(h)), done + [EditHeader(h)], start)
  {
    hide DecisionOf, Declared, IsTrailerKey;
    LastHeaderStep(done, EditHeader(h), start);
  }

  lemma SameTrailers(g: Gz, g': Gz, a: seq<Action>, b: seq<Action>, start: Header)
    requires KeepsTrailers(g, a, start)
    requires g'.state == g.state && g'.under.net.header == g.under.net.header
    requires LastHeader(a, start) == LastHeader(b, start) && DecisionOf(a, start) == DecisionOf(b, start)
    ensures KeepsTrailers(g', b, start)
  {
    hide AgreeBut, HoldsTrailers, LastHeader, DecisionOf;
  }

  lemma WriteOrFlushKeepsTrailers(env: Env, g: Gz, done: seq<Action>, start: Header, p: string)
    requires env.cfg.minBytes >= 1 && Keeps(env, g, done, start) && KeepsTrailers(g, done, start)
    ensures KeepsTrailers(GzWrite(env, g, p), done + [CallWrite(p)], start)
    ensures KeepsTrailers(GzFlush(env, g), done + [CallFlush], start)
    ensures HoldsTrailers(Finish(env, g).under.net.header, LastHeader(done, start),
                          Final(DecisionOf(done, start)).header)
  {
    hide *;
    var done1, g1 := done + [CallWriteHeader(200)], ImplicitStatus(env, g);
    ImplicitKeeps(env, g, done, start);
    ImplicitKeepsTrailers(env, g, done, start);
    NeverHijacked(env, g1, done1, start);
    DecidedKeepsTrailers(env, g1, done1, start, p);
    ImplicitFirst(env, g, p);
    LastHeaderStep(done, CallWriteHeader(200), start);
    LastHeaderStep(done, CallWrite(p), start);
    LastHeaderStep(done, CallFlush, start);
    DoneStep(done, CallWrite(p), start);
    DoneStep(done, CallFlush, start);
    CallDecides(DecisionOf(done, start), p);
    SameTrailers(GzWrite(env, g, p), GzWrite(env, g, p), done1, done + [CallWrite(p)], start);
    SameTrailers(GzFlush(env, g), GzFlush(env, g), done1, done + [CallFlush], start);
  }

  lemma ImplicitFirst(env: Env, g: Gz, p: string)
    requires !ImplicitStatus(env, g).state.Pending?
    ensures var g1 := ImplicitStatus(env, g);
            && GzWrite(env, g, p) == GzWrite(env, g1, p) && GzFlush(env, g) == GzFlush(env, g1)
            && Finish(env, g) == Finish(env, g1)
  {
    hide GzWriteHeader, CommitIdentity, CommitCompressed, ZDo, RecWrite, RecFlush;
  }

  lemma ImplicitKeepsTrailers(env: Env, g: Gz, done: seq<Action>, start: Header)
    requires Keeps(env, g, done, start) && KeepsTrailers(g, done, start)
    ensures KeepsTrailers(ImplicitStatus(env, g), done + [CallWriteHeader(200)], start)
  {
    hide Keeps, KeepsTrailers, Candidate, Eligible, WithVary, RecWriteHeader;
    WriteHeaderKeepsTrailers(env, g, done, start, 200);
  }

  lemma {:induction false} RunKeepsTrailers(env: Env, net: Net, rec: Rec, actions: seq<Action>)
    requires Lawful(env.codec) && env.cfg.minBytes >= 1 && FreshNet(net) && Unhijacked(net, actions)
    ensures KeepsTrailers(Run(env, Start(net, rec), actions), actions, net.header)
  {
    hide Keeps, Lawful, Step, FreshNet, HoldsTrailers;
    if actions != [] {
      var done, a := actions[..|actions| - 1], actions[|actions| - 1];
      assert a in actions && done + [a] == actions;
      RunKeepsTrailers(env, net, rec, done);
      RunKeeps(env, net, rec, done);
      CapsKept(env, Start(net, rec), done);
      StepKeepsTrailers(env, Run(env, Start(net, rec), done), done, net.header, a);
    }
  }

  // However the run interleaves setting trailers with writes, flushes and the commit, and whatever it
  // does to the rest of the header, at its end the live header map, from which net/http sends the
  // trailers, holds the last value set for every trailer the response's header declares, and exactly
  // the TrailerPrefix keys last set.
  lemma TrailersReachTheEnd(env: Env, net: Net, rec: Rec, actions: seq<Action>)
    requires Lawful(env.codec) && env.cfg.minBytes >= 1 && FreshNet(net) && Unhijacked(net, actions)
    ensures HoldsTrailers(Finish(env, Run(env, Start(net, rec), actions)).under.net.header,
                          LastHeader(actions, net.header), Final(DecisionOf(actions, net.header)).header)
  {
    hide *;
    RunKeeps(env, net, rec, actions);
    RunKeepsTrailers(env, net, rec, actions);
    WriteOrFlushKeepsTrailers(env, Run(env, Start(net, rec), actions), actions, net.header, "");
  }

  // ---------- a flush delivers ----------

  // After a flush the status is out, every byte written so far can be read from what is on the wire,
  // and the flush below came after them, whether the response is compressed or sent as written.
  lemma FlushDelivers(env: Env, net: Net, rec: Rec, actions: seq<Action>)
    requires Lawful(env.codec) && env.cfg.minBytes >= 1 && FreshNet(net) && net.canFlush && Unhijacked(net, actions)
    ensures var g := Run(env, Start(net, rec), actions + [CallFlush]); var n := g.under.net;
            && n.status.Some? && n.flushes != [] && n.flushes[|n.flushes| - 1] == |n.body|
            && !g.state.Buffering?
            && (if g.state.Compressed? then env.codec.readable(n.body) else n.body) == Written(actions)
  {
    hide Keeps, Lawful, GzFlush, Run, FreshNet, Written;
    var before := Run(env, Start(net, rec), actions);
    var all := actions + [CallFlush];
    assert all[..|actions|] == actions;
    RunStep(env, Start(net, rec), actions, CallFlush);
    RunKeeps(env, net, rec, actions);
    CapsKept(env, Start(net, rec), actions);
    FlushKeeps(env, before, actions, net.header);
    FlushReaches(env, before, actions, net.header);
  }

  lemma FlushReaches(env: Env, g: Gz, done: seq<Action>, start: Header)
    requires Lawful(env.codec) && env.cfg.minBytes >= 1 && Keeps(env, g, done, start) && g.under.net.canFlush
    ensures var f := GzFlush(env, g); var n := f.under.net;
            && n.status.Some? && n.flushes != [] && n.flushes[|n.flushes| - 1] == |n.body|
            && !f.state.Buffering?
            && (if f.state.Compressed? then env.codec.readable(n.body) else n.body) == Written(done)
  {
    hide Lines, WithVary, Compressible, CompressesStatus, DecisionOf, InfosOf, Written, BeforeFlush, Input, Marked, Get,
         SendHeld, Block, CommitIdentity;
    ImplicitKeeps(env, g, done, start);
    ImplicitCaps(env, g);
    DoneStep(done, CallFlush, start);
    var g1 := ImplicitStatus(env, g);
    match g1.state {
      case Buffering =>
        CommitIdentityMeaning(env, g1, Final(DecisionOf(done, start)));
        CommitCaps(g1);
      case Compressed => OpStep(env.codec, g1.ops, ZFlush);
      case _ =>
    }
  }

  lemma ImplicitCaps(env: Env, g: Gz)
    ensures ImplicitStatus(env, g).under.net.canFlush == g.under.net.canFlush
  {
    hide Lines, WithVary, Candidate, Eligible;
  }

  lemma CommitCaps(g: Gz)
    ensures CommitIdentity(g).under.net.canFlush == g.under.net.canFlush
  {
    hide CommitIdentity, CommitCompressed, ZDo;
    CommitsKeepCaps(Env(Config(1, [], s => None), false, Codec(s => "", s => None, s => "")), g, ZFlush);
  }

  // ---------- panics ----------

  // The response is still held back: nothing decided, or an eligible body under the size, unflushed.
  predicate HeldBack(env: Env, actions: seq<Action>, start: Header) {
    var d := DecisionOf(actions, start);
    d.Undecided? || (Eligible(env, d.status, d.header) && !Flushed(actions) && |Written(actions)| < env.cfg.minBytes)
  }

  // A handler that set Content-Length before anything decided the response.
  predicate KeepsLength(d: Decision) { d.Undecided? && "Content-Length" in d.header }

  // When the handler panics, a held-back response leaves nothing but its 1xx statuses on the wire,
  // and its header keeps a Content-Length only if nothing had been decided; a compressed one is left as
  // it is, cut before its seal, so it does not decode; one sent as written is left as it is.
  lemma PanicMeaning(env: Env, net: Net, rec: Rec, actions: seq<Action>)
    requires Lawful(env.codec) && env.cfg.minBytes >= 1 && FreshNet(net) && Unhijacked(net, actions)
    ensures var g := Run(env, Start(net, rec), actions); var n, n' := g.under.net, Abort(g).under.net;
            && n'.infos == InfosOf(actions, net.header) && n'.superfluous == 0
            && (HeldBack(env, actions, net.header) ==>
                 && n'.status.None? && n'.body == ""
                 && ("Content-Length" in n'.header <==> KeepsLength(DecisionOf(actions, net.header))))
            && (!HeldBack(env, actions, net.header) ==>
                 && n' == n && n'.status.Some?
                 && (if g.state.Compressed? then env.codec.decode(n'.body) == None else n'.body == Written(actions)))
  {
    hide Keeps, Lawful, Run, Abort, HeldBack, DecisionOf, InfosOf;
    RunKeeps(env, net, rec, actions);
    AbortMeaning(env, Run(env, Start(net, rec), actions), actions, net.header);
  }

  lemma AbortMeaning(env: Env, g: Gz, done: seq<Action>, start: Header)
    requires Lawful(env.codec) && Keeps(env, g, done, start)
    ensures var n, n' := g.under.net, Abort(g).under.net;
            && n'.infos == InfosOf(done, start) && n'.superfluous == 0
            && (HeldBack(env, done, start) ==>
                 && n'.status.None? && n'.body == ""
                 && ("Content-Length" in n'.header <==> KeepsLength(DecisionOf(done, start))))
            && (!HeldBack(env, done, start) ==>
                 && n' == n && n'.status.Some?
                 && (if g.state.Compressed? then env.codec.decode(n'.body) == None else n'.body == Written(done)))
  {
    hide Lines, WithVary, Compressible, CompressesStatus, DecisionOf, InfosOf, Written, BeforeFlush, Input, Marked,
         Get, Block;
    if !Flushed(done) { NothingFlushed(done); }
  }

  // ---------- hijacks ----------

  // After a hijack the writer leaves the response alone, whatever is called and however it ends.
  lemma {:induction false} HijackedStaysOut(env: Env, g: Gz, actions: seq<Action>)
    requires g.state.Hijacked? && g.under.net.hijacked
    ensures var g' := Run(env, g, actions);
            && g'.state.Hijacked? && g'.under.net == g.under.net.(header := g'.under.net.header)
            && Finish(env, g').under.net == g'.under.net && Abort(g').under.net == g'.under.net
  {
    if actions != [] {
      HijackedStaysOut(env, g, actions[..|actions| - 1]);
      HijackedStep(env, Run(env, g, actions[..|actions| - 1]), actions[|actions| - 1]);
    }
  }

  lemma HijackedStep(env: Env, g: Gz, a: Action)
    requires g.state.Hijacked? && g.under.net.hijacked
    ensures var g' := Step(env, g, a);
            g'.state.Hijacked? && g'.under.net == g.under.net.(header := g'.under.net.header)
  {}

  // Hijacking a held-back response drops what was held: the response never sends a status or a byte.
  lemma HijackDropsHeld(env: Env, net: Net, rec: Rec, before: seq<Action>, after: seq<Action>)
    requires Lawful(env.codec) && env.cfg.minBytes >= 1 && FreshNet(net) && net.canHijack && CallHijack !in before
    requires HeldBack(env, before, net.header)
    ensures var g := Run(env, Start(net, rec), before + [CallHijack] + after);
            && g.state.Hijacked? && Finish(env, g).under.net.status.None? && Finish(env, g).under.net.body == ""
            && Abort(g).under.net.status.None? && Abort(g).under.net.body == ""
  {
    hide Keeps, Lawful, Run, Step, Finish, Abort, HeldBack;
    var g0 := Run(env, Start(net, rec), before);
    RunKeeps(env, net, rec, before);
    CapsKept(env, Start(net, rec), before);
    RunStep(env, Start(net, rec), before, CallHijack);
    RunAppend(env, Start(net, rec), before + [CallHijack], after);
    HijackMeaning(env, g0, before, net.header);
    HijackedStaysOut(env, Step(env, g0, CallHijack), after);
  }

  lemma HijackMeaning(env: Env, g: Gz, done: seq<Action>, start: Header)
    requires Keeps(env, g, done, start) && g.under.net.canHijack && HeldBack(env, done, start)
    ensures var g' := Step(env, g, CallHijack);
            g'.state.Hijacked? && g'.under.net.hijacked && g'.under.net.status.None? && g'.under.net.body == ""
  {
    hide Lines, WithVary, Compressible, CompressesStatus, DecisionOf, InfosOf, Written, BeforeFlush, Input, Marked,
         Get, Block;
    if !Flushed(done) { NothingFlushed(done); }
  }

  // ---------- the recorder underneath ----------

  // v is what some calls on the recorder make of u.
  ghost predicate Reached(u: Under, v: Under) { exists ops :: v == RecRun(u, ops) }

  lemma {:induction false} RecRunLast(u: Under, ops: seq<Op>, op: Op)
    ensures RecRun(u, ops + [op]) == RecStep(RecRun(u, ops), op)
    decreases |ops|
  {
    hide RecStep;
    if ops == [] {
      assert [] + [op] == [op] && [op][1..] == [];
      assert RecRun(u, [op]) == RecRun(RecStep(u, op), []);
    } else {
      assert (ops + [op])[1..] == ops[1..] + [op];
      RecRunLast(RecStep(u, ops[0]), ops[1..], op);
    }
  }

  lemma ReachedStep(u: Under, v: Under, op: Op)
    requires Reached(u, v)
    ensures Reached(u, RecStep(v, op))
  {
    hide RecStep, RecRun;
    var ops :| v == RecRun(u, ops);
    RecRunLast(u, ops, op);
  }

  // Every change the writer makes to the response is a step of the recorder.
  lemma ReachedSteps(u: Under)
    ensures Reached(u, u)
    ensures forall v: Under, h: Header :: Reached(u, v) ==> Reached(u, SetHeader(v, h))
    ensures forall v: Under, c: int :: Reached(u, v) ==> Reached(u, RecWriteHeader(v, c))
    ensures forall v: Under, p: string :: Reached(u, v) ==> Reached(u, RecWrite(v, p))
    ensures forall v: Under :: Reached(u, v) ==> Reached(u, RecFlush(v)) && Reached(u, RecHijack(v))
  {
    hide Reached, SetHeader, RecWriteHeader, RecWrite, RecReadFrom, RecFlush, RecHijack;
    ReachedSelf(u);
    forall v: Under, h: Header | Reached(u, v) ensures Reached(u, SetHeader(v, h)) { ReachedStep(u, v, Edit(h)); }
    forall v: Under, c: int | Reached(u, v) ensures Reached(u, RecWriteHeader(v, c)) {
      ReachedStep(u, v, WriteHeader(c));
    }
    forall v: Under, p: string | Reached(u, v) ensures Reached(u, RecWrite(v, p)) { ReachedStep(u, v, Write(p)); }
    forall v: Under | Reached(u, v) ensures Reached(u, RecFlush(v)) && Reached(u, RecHijack(v)) {
      ReachedStep(u, v, Flush);
      ReachedStep(u, v, Hijack);
    }
  }

  lemma ReachedSelf(u: Under)
    ensures Reached(u, u)
  {
    assert RecRun(u, []) == u;
  }

  lemma DecideReaches(u: Under, env: Env, g: Gz, code: int)
    requires Reached(u, g.under)
    ensures Reached(u, GzWriteHeader(env, g, code).under)
  {
    hide Reached, SetHeader, RecWriteHeader, Candidate, Eligible, WithVary;
    ReachedSteps(u);
  }

  lemma SendHeldReaches(u: Under, g: Gz, compressed: bool)
    requires Reached(u, g.under)
    ensures Reached(u, SendHeld(g, compressed).under)
  {
    hide Reached, SetHeader, RecWriteHeader, Marked, Restored, Trailers;
    ReachedSteps(u);
  }

  lemma CompressReaches(u: Under, env: Env, g: Gz, op: ZOp)
    requires Reached(u, g.under)
    ensures Reached(u, ZDo(env, g, op).under)
  {
    hide Reached, RecWrite, Emitted;
    ReachedSteps(u);
  }

  lemma CommitReaches(u: Under, env: Env, g: Gz)
    requires Reached(u, g.under)
    ensures Reached(u, CommitIdentity(g).under) && Reached(u, CommitCompressed(env, g).under)
  {
    hide Reached, RecWrite, SendHeld, ZDo;
    ReachedSteps(u);
    SendHeldReaches(u, g.(state := Identity), false);
    SendHeldReaches(u, g.(state := Compressed), true);
    CompressReaches(u, env, SendHeld(g.(state := Compressed), true).(ops := []), ZWrite(g.buf));
  }

  lemma GzStepReaches(u: Under, env: Env, g: Gz, a: Action)
    requires Reached(u, g.under)
    ensures Reached(u, Step(env, g, a).under)
  {
    hide Reached, SetHeader, RecWrite, RecFlush, RecHijack, GzWriteHeader, CommitIdentity, CommitCompressed, ZDo;
    ReachedSteps(u);
    DecideReaches(u, env, g, 200);
    var g1 := ImplicitStatus(env, g);
    CommitReaches(u, env, g1);
    match a {
      case CallWriteHeader(code) => DecideReaches(u, env, g, code);
      case CallWrite(p) =>
        CompressReaches(u, env, g1, ZWrite(p));
        CompressReaches(u, env, CommitCompressed(env, g1), ZWrite(p));
      case CallFlush => CompressReaches(u, env, g1, ZFlush);
      case _ =>
    }
  }

  lemma EndReaches(u: Under, env: Env, g: Gz)
    requires Reached(u, g.under)
    ensures Reached(u, Abort(g).under) && Reached(u, Finish(env, g).under)
  {
    hide Reached, SetHeader, GzWriteHeader, CommitIdentity, ZDo;
    ReachedSteps(u);
    DecideReaches(u, env, g, 200);
    var g1 := ImplicitStatus(env, g);
    CommitReaches(u, env, g1);
    CompressReaches(u, env, g1, ZClose);
  }

  // Whatever the handler does, hijacks included, and however it ends, the writer changes the response
  // only through calls on the recorder; so what is proved of the recorder over every run of calls
  // holds of the response under Gzip.
  lemma {:induction false} GzRunRecords(env: Env, net: Net, rec: Rec, actions: seq<Action>)
    ensures var u := Under(net, rec); var g := Run(env, Start(net, rec), actions);
            Reached(u, g.under) && Reached(u, Abort(g).under) && Reached(u, Finish(env, g).under)
  {
    hide Step, Finish, Abort, Reached;
    var u := Under(net, rec);
    if actions == [] {
      ReachedSelf(u);
    } else {
      GzRunRecords(env, net, rec, actions[..|actions| - 1]);
      GzStepReaches(u, env, Run(env, Start(net, rec), actions[..|actions| - 1]), actions[|actions| - 1]);
    }
    EndReaches(u, env, Run(env, Start(net, rec), actions));
  }

  lemma ReachedRecords(u: Under, v: Under)
    requires Recorded(u) && Reached(u, v)
    ensures Recorded(v)
  {
    var ops :| v == RecRun(u, ops);
    RunRecords(u, ops);
  }
}
