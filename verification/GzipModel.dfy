/**
 gzip.go, the delayed-commit writer as a five-state machine over values: what each call does to the
 writer's fields and to the response it wraps. GzipWriter proves the object equal to these functions;
 GzipRuns proves what they promise over whole runs.
 */
module GzipModel {
  import opened Text
  import opened Header
  import opened Gzip
  import opened ResponseWriter

  // What a compressor is asked to do between Reset and release.
  datatype ZOp = ZWrite(p: string) | ZFlush | ZClose

  // A compressor and a decompressor, opaque: the bytes emitted after a history of operations, what a
  // client decodes from a whole stream, and what it can read out of the bytes received so far.
  datatype Codec = Codec(emit: seq<ZOp> -> string, decode: string -> Option<string>, readable: string -> string)

  function Input(ops: seq<ZOp>): string {
    if ops == [] then ""
    else
      var last := ops[|ops| - 1];
      Input(ops[..|ops| - 1]) + if last.ZWrite? then last.p else ""
  }

  predicate Open(ops: seq<ZOp>) { ZClose !in ops }

  // The laws assumed of compress/gzip: output only grows, a sealed stream decodes to what was
  // written, a stream cut before its seal does not decode, and once flushed all that was written can
  // be read.
  ghost predicate Lawful(c: Codec) {
    && c.emit([]) == ""
    && (forall ops, op :: c.emit(ops) <= c.emit(ops + [op]))
    && (forall ops :: Open(ops) ==> c.decode(c.emit(ops + [ZClose])) == Some(Input(ops)))
    && (forall ops :: Open(ops) ==> c.decode(c.emit(ops)) == None)
    && (forall ops :: Open(ops) ==> c.readable(c.emit(ops + [ZFlush])) == Input(ops))
  }

  function Emitted(c: Codec, ops: seq<ZOp>, op: ZOp): string {
    var before, after := c.emit(ops), c.emit(ops + [op]);
    if |before| <= |after| then after[|before|..] else ""
  }

  datatype State = Pending | Buffering | Identity | Compressed | Hijacked

  datatype Env = Env(cfg: Config, accepts: bool, codec: Codec)

  datatype Gz = Gz(under: Under, state: State, status: int, held: Header, buf: string, ops: seq<ZOp>)

  predicate Eligible(env: Env, status: int, h: Header) {
    Candidate(env.cfg, status, h) && env.accepts && CompressesStatus(status)
  }

  function GzWriteHeader(env: Env, g: Gz, code: int): Gz {
    if !g.state.Pending? then g
    else if IsInfo(code) then g.(under := RecWriteHeader(g.under, code))
    else
      var h := g.under.net.header;
      var h' := if Candidate(env.cfg, code, h) then WithVary(h) else h;
      var u := SetHeader(g.under, h');
      if Eligible(env, code, h) then g.(under := u, state := Buffering, status := code, held := h')
      else g.(under := RecWriteHeader(u, code), state := Identity)
  }

  function ImplicitStatus(env: Env, g: Gz): Gz {
    if g.state.Pending? then GzWriteHeader(env, g, 200) else g
  }

  function SendHeld(g: Gz, compressed: bool): Gz {
    var h := g.under.net.header;
    var block := Restored(h, g.held);
    var u := RecWriteHeader(SetHeader(g.under, if compressed then Marked(block) else block), g.status);
    g.(under := SetHeader(u, u.net.header + Trailers(h, g.held)), held := map[])
  }

  function ZDo(env: Env, g: Gz, op: ZOp): Gz {
    g.(under := RecWrite(g.under, Emitted(env.codec, g.ops, op)), ops := g.ops + [op])
  }

  function CommitCompressed(env: Env, g: Gz): Gz {
    var sent := SendHeld(g.(state := Compressed), true);
    ZDo(env, sent.(ops := []), ZWrite(g.buf)).(buf := "")
  }

  function CommitIdentity(g: Gz): Gz {
    var sent := SendHeld(g.(state := Identity), false);
    if g.buf == "" then sent else sent.(under := RecWrite(sent.under, g.buf), buf := "")
  }

  function GzWrite(env: Env, g: Gz, p: string): Gz {
    var g := ImplicitStatus(env, g);
    match g.state
    case Buffering =>
      if |g.buf| + |p| < env.cfg.minBytes then g.(buf := g.buf + p)
      else ZDo(env, CommitCompressed(env, g), ZWrite(p))
    case Compressed => ZDo(env, g, ZWrite(p))
    case Hijacked => g
    case _ => g.(under := RecWrite(g.under, p))
  }

  function GzFlush(env: Env, g: Gz): Gz {
    var g := ImplicitStatus(env, g);
    match g.state
    case Hijacked => g
    case Buffering => var g := CommitIdentity(g); g.(under := RecFlush(g.under))
    case Compressed => var g := ZDo(env, g, ZFlush); g.(under := RecFlush(g.under))
    case _ => g.(under := RecFlush(g.under))
  }

  function GzHijack(g: Gz): Gz {
    if HijackWorks(g.under.net) then g.(under := RecHijack(g.under), buf := "", ops := [], state := Hijacked)
    else g.(under := RecHijack(g.under))
  }

  // The handler returned.
  function Finish(env: Env, g: Gz): Gz {
    var g := ImplicitStatus(env, g);
    match g.state
    case Buffering => CommitIdentity(g)
    case Compressed => ZDo(env, g, ZClose).(ops := [])
    case _ => g
  }

  // The handler panicked.
  function Abort(g: Gz): Gz {
    var u := if g.state.Buffering? then SetHeader(g.under, Del(g.under.net.header, "Content-Length")) else g.under;
    g.(under := u, buf := "", ops := [])
  }

  function Ended(env: Env, g: Gz, panics: bool): Gz { if panics then Abort(g) else Finish(env, g) }

  // What a handler does: edit the live header map, or call one of the writer's methods.
  datatype Action = EditHeader(h: Header) | CallWriteHeader(code: int) | CallWrite(p: string) | CallFlush | CallHijack

  function Step(env: Env, g: Gz, a: Action): Gz {
    match a
    case EditHeader(h) => g.(under := SetHeader(g.under, h))
    case CallWriteHeader(code) => GzWriteHeader(env, g, code)
    case CallWrite(p) => GzWrite(env, g, p)
    case CallFlush => GzFlush(env, g)
    case CallHijack => GzHijack(g)
  }

  // The run of a handler's actions, the last one last.
  function Run(env: Env, g: Gz, actions: seq<Action>): Gz {
    if actions == [] then g
    else Step(env, Run(env, g, actions[..|actions| - 1]), actions[|actions| - 1])
  }

  function Start(net: Net, rec: Rec): Gz { Gz(Under(net, rec), Pending, 0, map[], "", []) }

  lemma RunStep(env: Env, g: Gz, actions: seq<Action>, a: Action)
    ensures Run(env, g, actions + [a]) == Step(env, Run(env, g, actions), a)
  {
    hide Step;
    assert (actions + [a])[..|actions|] == actions;
  }

  lemma {:induction false} RunAppend(env: Env, g: Gz, a: seq<Action>, b: seq<Action>)
    ensures Run(env, g, a + b) == Run(env, Run(env, g, a), b)
  {
    hide Step;
    if b == [] {
      assert a + b == a;
    } else {
      RunAppend(env, g, a, b[..|b| - 1]);
      assert (a + b)[..|a + b| - 1] == a + b[..|b| - 1];
    }
  }

  // ---------- a lawful codec ----------

  // The laws can be met: a framing that writes each byte behind a mark and ends with a full stop.
  function Framed(ops: seq<ZOp>): string {
    if ops == [] then ""
    else
      Framed(ops[..|ops| - 1]) +
      match ops[|ops| - 1] case ZWrite(p) => Marks(p) case ZFlush => "" case ZClose => "."
  }

  function Marks(p: string): string {
    if p == "" then "" else ['+', p[0]] + Marks(p[1..])
  }

  function Unframed(s: string): Option<string> {
    if s == "." then Some("")
    else if |s| < 2 || s[0] != '+' then None
    else
      match Unframed(s[2..])
      case None => None
      case Some(t) => Some([s[1]] + t)
  }

  // The marked bytes at the front.
  function Readable(s: string): string {
    if |s| < 2 || s[0] != '+' then "" else [s[1]] + Readable(s[2..])
  }

  lemma {:induction false} ReadableMarks(p: string)
    ensures Readable(Marks(p)) == p
  {
    if p != "" {
      assert Marks(p)[2..] == Marks(p[1..]);
      ReadableMarks(p[1..]);
      assert p == [p[0]] + p[1..];
    }
  }

  lemma {:induction false} MarksAppend(p: string, q: string)
    ensures Marks(p + q) == Marks(p) + Marks(q)
  {
    if p == "" {
      assert p + q == q;
    } else {
      assert (p + q)[1..] == p[1..] + q;
      MarksAppend(p[1..], q);
    }
  }

  lemma {:induction false} OpenIsMarks(ops: seq<ZOp>)
    requires Open(ops)
    ensures Framed(ops) == Marks(Input(ops))
  {
    if ops != [] {
      var t, last := ops[..|ops| - 1], ops[|ops| - 1];
      assert last in ops;
      OpenIsMarks(t);
      MarksAppend(Input(t), if last.ZWrite? then last.p else "");
    }
  }

  lemma UnframedMark(c: char, s: string)
    ensures Unframed(['+', c] + s) == if Unframed(s).None? then None else Some([c] + Unframed(s).value)
  {
    var t := ['+', c] + s;
    assert t[2..] == s && t[0] == '+' && t[1] == c;
  }

  lemma {:induction false} UnframedMarks(p: string)
    ensures Unframed(Marks(p) + ".") == Some(p) && Unframed(Marks(p)) == None
  {
    hide Unframed;
    if p == "" {
      assert Marks(p) + "." == ".";
      UnframedEnds();
    } else {
      var s := Marks(p[1..]);
      UnframedMarks(p[1..]);
      UnframedMark(p[0], s);
      UnframedMark(p[0], s + ".");
      assert Marks(p) + "." == ['+', p[0]] + (s + ".");
      assert p == [p[0]] + p[1..];
    }
  }

  lemma UnframedEnds()
    ensures Unframed(".") == Some("") && Unframed("") == None
  {}

  lemma LawfulCodecExists()
    ensures Lawful(Codec(Framed, Unframed, Readable))
  {
    forall ops: seq<ZOp>, op: ZOp ensures Framed(ops) <= Framed(ops + [op]) {
      assert (ops + [op])[..|ops|] == ops;
    }
    forall ops: seq<ZOp> | Open(ops)
      ensures Unframed(Framed(ops + [ZClose])) == Some(Input(ops)) && Unframed(Framed(ops)) == None
      ensures Readable(Framed(ops + [ZFlush])) == Input(ops)
    {
      assert (ops + [ZClose])[..|ops|] == ops && (ops + [ZFlush])[..|ops|] == ops;
      OpenIsMarks(ops);
      UnframedMarks(Input(ops));
      ReadableMarks(Input(ops));
      assert Marks(Input(ops)) + "" == Marks(Input(ops));
    }
  }
}
