/**
 gzip.go: gzipWriter as an object over a StatusRecorder, with the compressor it borrows from a pool.
 Every method is proved to change the fields and the response as GzipModel says.
 */
module GzipWriter {
  import opened Header
  import opened Gzip
  import opened ResponseWriter
  import opened GzipModel

  // gzip.Writer: the operations since its last Reset, and where its output goes; null is io.Discard.
  class Compressor {
    const codec: Codec
    var ops: seq<ZOp>
    var sink: StatusRecorder?

    constructor (codec: Codec, sink: StatusRecorder)
      ensures this.codec == codec && ops == [] && this.sink == sink
    {
      this.codec, this.sink := codec, sink;
      ops := [];
    }

    method Reset(sink: StatusRecorder?)
      modifies this
      ensures ops == [] && this.sink == sink
    {
      this.sink, ops := sink, [];
    }

    method Do(op: ZOp)
      requires sink != null
      modifies this, sink, sink.w
      ensures ops == old(ops) + [op] && sink == old(sink)
      ensures sink.State() == RecWrite(old(sink.State()), Emitted(codec, old(ops), op))
    {
      sink.Write(Emitted(codec, ops, op));
      ops := ops + [op];
    }
  }

  // gzipWriters: compressors at rest, none of which writes anywhere.
  class Pool {
    var items: set<Compressor>

    ghost predicate AtRest(codec: Codec)
      reads this, items
    {
      forall c :: c in items ==> c.sink == null && c.codec == codec
    }

    // A pool may answer nothing even when it holds something.
    method Get() returns (c: Compressor?)
      modifies this
      ensures c == null ==> items == old(items)
      ensures c != null ==> c in old(items) && items == old(items) - {c}
    {
      c := null;
      if items != {} {
        if * {
          c :| c in items;
          items := items - {c};
        }
      }
    }

    method Put(c: Compressor)
      modifies this
      ensures items == old(items) + {c}
    {
      items := items + {c};
    }
  }

  class GzipWriter {
    const rw: StatusRecorder
    const env: Env
    const pool: Pool
    var state: State
    var status: int
    var held: Header
    var buf: string
    var zw: Compressor?

    // The handler is still running: a compressor is borrowed exactly while compressing, writes to
    // this response and is not in the pool.
    ghost predicate Valid()
      reads this, pool, pool.items, zw
    {
      && (state == Compressed <==> zw != null)
      && (zw != null ==> zw.sink == rw && zw.codec == env.codec && zw !in pool.items)
      && pool.AtRest(env.codec)
    }

    ghost function Repr(): set<object>
      reads this, pool
    {
      {this, rw, rw.w, pool} + pool.items + if zw == null then {} else {zw}
    }

    ghost function Model(): Gz
      reads this, rw, rw.w, zw
    {
      Gz(rw.State(), state, status, held, buf, if zw == null then [] else zw.ops)
    }

    constructor (rw: StatusRecorder, env: Env, pool: Pool)
      requires pool.AtRest(env.codec)
      ensures this.rw == rw && this.env == env && this.pool == pool && zw == null
      ensures Valid() && Model() == Start(rw.State().net, rw.State().rec)
    {
      this.rw, this.env, this.pool := rw, env, pool;
      state, status, held, buf, zw := Pending, 0, map[], "", null;
    }

    method WriteHeader(code: int)
      requires Valid()
      modifies this, rw, rw.w
      ensures Valid() && zw == old(zw)
      ensures Model() == GzWriteHeader(env, old(Model()), code)
    {
      hide Compressible, CompressesStatus, WithVary, Get;
      if state != Pending {
        return;
      }
      if IsInfo(code) {
        rw.WriteHeader(code);
        return;
      }
      var h := rw.w.net.header;
      var candidate := Candidate(env.cfg, code, h);
      if candidate {
        h := AddVaryAcceptEncoding(h);
        rw.w.SetHeader(h);
      }
      if !candidate || !env.accepts || !CompressesStatus(code) {
        state := Identity;
        rw.WriteHeader(code);
        return;
      }
      state, status, held := Buffering, code, h;
    }

    method SendImplicitStatus()
      requires Valid()
      modifies this, rw, rw.w
      ensures Valid() && zw == old(zw)
      ensures Model() == ImplicitStatus(env, old(Model()))
    {
      if state == Pending {
        WriteHeader(200);
      }
    }

    method SendHeldHeader(compressed: bool)
      modifies this, rw, rw.w
      ensures Model() == SendHeld(old(Model()), compressed)
      ensures state == old(state) && zw == old(zw) && buf == old(buf)
    {
      hide Restored, Trailers, Marked;
      var h := rw.w.net.header;
      var block, trailers := RestoreHeader(h, held);
      held := map[];
      if compressed {
        block := MarkCompressed(block);
      }
      rw.w.SetHeader(block);
      rw.WriteHeader(status);
      rw.w.SetHeader(rw.w.net.header + trailers);
    }

    method StartCompressing()
      requires Valid() && state == Buffering
      modifies this, rw, rw.w, pool, pool.items
      ensures Valid() && fresh(Repr() - old(Repr()))
      ensures Model() == CommitCompressed(env, old(Model()))
    {
      hide SendHeld, RecWrite, Emitted;
      state := Compressed;
      ghost var sent := SendHeld(old(Model()).(state := Compressed), true);
      assert Model() == old(Model()).(state := Compressed);
      SendHeldHeader(true);
      assert Model() == sent;
      var c := pool.Get();
      if c == null {
        c := new Compressor(env.codec, rw);
      } else {
        c.Reset(rw);
      }
      zw := c;
      assert rw.State() == sent.under;
      zw.Do(ZWrite(buf));
      buf := "";
    }

    method SendAsWritten()
      requires Valid() && state == Buffering
      modifies this, rw, rw.w
      ensures Valid() && zw == null
      ensures Model() == CommitIdentity(old(Model()))
    {
      hide SendHeld, RecWrite;
      state := Identity;
      assert Model() == old(Model()).(state := Identity);
      SendHeldHeader(false);
      if |buf| == 0 {
        return;
      }
      rw.Write(buf);
      buf := "";
    }

    method Write(p: string)
      requires Valid()
      modifies this, rw, rw.w, pool, pool.items, zw
      ensures Valid() && fresh(Repr() - old(Repr()))
      ensures Model() == GzWrite(env, old(Model()), p)
    {
      hide CommitCompressed, RecWrite, Emitted, GzWriteHeader;
      SendImplicitStatus();
      match state {
        case Buffering =>
          if |buf| + |p| < env.cfg.minBytes {
            buf := buf + p;
            return;
          }
          StartCompressing();
          Compressing(env, old(Model()));
          zw.Do(ZWrite(p));
        case Compressed => zw.Do(ZWrite(p));
        case Hijacked =>
        case _ => rw.Write(p);
      }
    }

    method FlushError()
      requires Valid()
      modifies this, rw, rw.w, zw
      ensures Valid() && zw == old(zw)
      ensures Model() == GzFlush(env, old(Model()))
    {
      hide CommitIdentity, RecWrite, Emitted, GzWriteHeader, RecFlush;
      SendImplicitStatus();
      match state {
        case Hijacked => return;
        case Buffering => SendAsWritten();
        case Compressed => zw.Do(ZFlush);
        case _ =>
      }
      var ok := rw.FlushError();
    }

    method Hijack() returns (ok: bool)
      requires Valid()
      modifies this, rw, rw.w, pool, zw
      ensures Valid() && Repr() <= old(Repr())
      ensures ok && old(zw) != null ==> old(zw) in pool.items
      ensures Model() == GzHijack(old(Model())) && ok == HijackWorks(old(Model()).under.net)
    {
      ok := rw.Hijack();
      if ok {
        buf := "";
        Release();
        state := Hijacked;
      }
    }

    // Settles a response whose handler returned.
    method Settle()
      requires Valid()
      modifies this, rw, rw.w, pool, zw
      ensures zw == null && pool.AtRest(env.codec)
      ensures pool.items == old(pool.items) + if old(zw) == null then {} else {old(zw)}
      ensures Model() == Finish(env, old(Model()))
    {
      hide CommitIdentity, RecWrite, Emitted, GzWriteHeader;
      SendImplicitStatus();
      match state {
        case Buffering => SendAsWritten();
        case Compressed =>
          zw.Do(ZClose);
          Release();
        case _ =>
      }
    }

    // Runs while a handler panic unwinds.
    method Drop()
      requires Valid()
      modifies this, rw, rw.w, pool, zw
      ensures zw == null && pool.AtRest(env.codec)
      ensures pool.items == old(pool.items) + if old(zw) == null then {} else {old(zw)}
      ensures Model() == Abort(old(Model()))
    {
      if state == Buffering {
        rw.w.SetHeader(Del(rw.w.net.header, "Content-Length"));
      }
      buf := "";
      Release();
    }

    // The compressor goes back to the pool cut off from this response.
    method Release()
      requires zw != null ==> zw.codec == env.codec
      requires pool.AtRest(env.codec)
      modifies this`zw, pool, zw
      ensures zw == null && pool.AtRest(env.codec)
      ensures pool.items == old(pool.items) + if old(zw) == null then {} else {old(zw)}
    {
      if zw == null {
        return;
      }
      zw.Reset(null);
      pool.Put(zw);
      zw := null;
    }
  }

  lemma Compressing(env: Env, g: Gz)
    requires ImplicitStatus(env, g).state.Buffering?
    ensures CommitCompressed(env, ImplicitStatus(env, g)).state.Compressed?
  {}

  // One call of the handler.
  method Act(g: GzipWriter, a: Action)
    requires g.Valid()
    modifies g, g.rw, g.rw.w, g.pool, g.pool.items, g.zw
    ensures g.Valid() && fresh(g.Repr() - old(g.Repr()))
    ensures g.Model() == Step(g.env, old(g.Model()), a)
  {
    hide GzWrite, GzFlush, GzHijack, GzWriteHeader;
    match a {
      case EditHeader(h) => g.rw.w.SetHeader(h);
      case CallWriteHeader(code) => g.WriteHeader(code);
      case CallWrite(p) => g.Write(p);
      case CallFlush => g.FlushError();
      case CallHijack => var ok := g.Hijack();
    }
  }

  // How the handler ends.
  method End(g: GzipWriter, panics: bool)
    requires g.Valid()
    modifies g, g.rw, g.rw.w, g.pool, g.zw
    ensures g.zw == null && g.pool.AtRest(g.env.codec)
    ensures g.Model() == Ended(g.env, old(g.Model()), panics)
    ensures g.pool.items == old(g.pool.items) + if old(g.zw) == null then {} else {old(g.zw)}
  {
    if panics {
      g.Drop();
    } else {
      g.Settle();
    }
  }

  // ---------- two responses, one pool ----------

  // Two handlers running at once over one pool, each with a response of its own; neither holds the
  // other's compressor.
  ghost predicate Apart(a: GzipWriter, b: GzipWriter)
    reads a, b, a.pool, a.pool.items, a.zw, b.pool, b.pool.items, b.zw
  {
    && a != b && a.rw != b.rw && a.rw.w != b.rw.w && a.pool == b.pool && a.env.codec == b.env.codec
    && a.Valid() && b.Valid() && (a.zw != null ==> a.zw != b.zw)
  }

  // A call on one writer leaves the other's response and state alone.
  method ActApart(a: GzipWriter, b: GzipWriter, act: Action)
    requires Apart(a, b)
    modifies a, a.rw, a.rw.w, a.pool, a.pool.items, a.zw
    ensures Apart(a, b) && fresh(a.Repr() - old(a.Repr()))
    ensures a.Model() == Step(a.env, old(a.Model()), act) && b.Model() == old(b.Model())
  {
    hide Step;
    Act(a, act);
  }

  // One handler has ended; the other still runs.
  ghost predicate Ending(a: GzipWriter, b: GzipWriter)
    reads a, b, b.pool, b.pool.items, b.zw
  {
    a != b && a.rw != b.rw && a.rw.w != b.rw.w && a.zw == null && b.Valid()
  }

  method FinishAlone(a: GzipWriter, b: GzipWriter, more: seq<Action>, panics: bool)
    requires Ending(a, b)
    modifies Shared(a, b)
    ensures a.Model() == old(a.Model())
    ensures b.Model() == Ended(b.env, Run(b.env, old(b.Model()), more), panics)
  {
    hide Run, Ended;
    Alone(b, more);
    End(b, panics);
  }

  // A handler's end leaves the other running, even as the compressor it gives back becomes free for
  // the other to take.
  method EndApart(a: GzipWriter, b: GzipWriter, panics: bool)
    requires Apart(a, b)
    modifies Shared(a, b)
    ensures Ending(a, b) && Shared(a, b) <= old(Shared(a, b))
    ensures b.Model() == old(b.Model())
    ensures a.Model() == Ended(a.env, old(a.Model()), panics)
  {
    hide Ended;
    End(a, panics);
  }

  // A call of either handler.
  datatype Turn = Turn(first: bool, act: Action)

  // The calls one of the two handlers makes.
  function Calls(turns: seq<Turn>, first: bool): seq<Action> {
    if turns == [] then []
    else
      var last := turns[|turns| - 1];
      Calls(turns[..|turns| - 1], first) + if last.first == first then [last.act] else []
  }

  lemma CallsStep(turns: seq<Turn>, i: nat, first: bool)
    requires i < |turns|
    ensures Calls(turns[..i + 1], first) ==
            if turns[i].first == first then Calls(turns[..i], first) + [turns[i].act] else Calls(turns[..i], first)
  {
    assert turns[..i + 1][..i] == turns[..i];
    assert Calls(turns[..i], first) + [] == Calls(turns[..i], first);
  }

  function Move(env: Env, g: Gz, turn: Turn, first: bool): Gz {
    if turn.first == first then Step(env, g, turn.act) else g
  }

  lemma RunMoves(env: Env, g: Gz, turns: seq<Turn>, i: nat, first: bool)
    requires i < |turns|
    ensures Run(env, g, Calls(turns[..i + 1], first)) ==
            Move(env, Run(env, g, Calls(turns[..i], first)), turns[i], first)
  {
    hide Step, Run;
    CallsStep(turns, i, first);
    RunStep(env, g, Calls(turns[..i], first), turns[i].act);
  }

  method TakeTurn(a: GzipWriter, b: GzipWriter, turn: Turn)
    requires Apart(a, b)
    modifies Shared(a, b)
    ensures Apart(a, b) && fresh(Shared(a, b) - old(Shared(a, b)))
    ensures a.Model() == Move(a.env, old(a.Model()), turn, true)
    ensures b.Model() == Move(b.env, old(b.Model()), turn, false)
  {
    hide Step;
    if turn.first {
      ActApart(a, b, turn.act);
    } else {
      ActApart(b, a, turn.act);
    }
  }

  // Everything two writers over one pool may touch.
  ghost function Shared(a: GzipWriter, b: GzipWriter): set<object>
    reads a, a.pool, b, b.pool
  {
    a.Repr() + b.Repr()
  }

  method TakeTurns(a: GzipWriter, b: GzipWriter, turns: seq<Turn>)
    requires Apart(a, b)
    modifies Shared(a, b)
    ensures Apart(a, b) && fresh(Shared(a, b) - old(Shared(a, b)))
    ensures a.Model() == Run(a.env, old(a.Model()), Calls(turns, true))
    ensures b.Model() == Run(b.env, old(b.Model()), Calls(turns, false))
  {
    hide Move, Run, Calls, Apart, GzipWriter.Model;
    NothingRun(a.env, a.Model());
    NothingRun(b.env, b.Model());
    NoCalls(turns);
    for i := 0 to |turns|
      invariant Apart(a, b) && fresh(Shared(a, b) - old(Shared(a, b)))
      invariant a.Model() == Run(a.env, old(a.Model()), Calls(turns[..i], true))
      invariant b.Model() == Run(b.env, old(b.Model()), Calls(turns[..i], false))
    {
      RunMoves(a.env, old(a.Model()), turns, i, true);
      RunMoves(b.env, old(b.Model()), turns, i, false);
      TakeTurn(a, b, turns[i]);
    }
    assert turns[..|turns|] == turns;
  }

  lemma NothingRun(env: Env, g: Gz)
    ensures Run(env, g, []) == g
  {}

  lemma NoCalls(turns: seq<Turn>)
    ensures Calls(turns[..0], true) == [] && Calls(turns[..0], false) == []
  {}

  method Alone(g: GzipWriter, actions: seq<Action>)
    requires g.Valid()
    modifies g, g.rw, g.rw.w, g.pool, g.pool.items, g.zw
    ensures g.Valid() && fresh(g.Repr() - old(g.Repr()))
    ensures g.Model() == Run(g.env, old(g.Model()), actions)
  {
    hide Step, Run;
    NothingRun(g.env, g.Model());
    assert actions[..0] == [];
    for i := 0 to |actions|
      invariant g.Valid() && fresh(g.Repr() - old(g.Repr()))
      invariant g.Model() == Run(g.env, old(g.Model()), actions[..i])
    {
      RunStep(g.env, old(g.Model()), actions[..i], actions[i]);
      assert actions[..i + 1] == actions[..i] + [actions[i]];
      Act(g, actions[i]);
    }
    assert actions[..|actions|] == actions;
  }

  // Two handlers' calls in any order, the first handler ending before the other: each response is
  // what it would be with the pool to itself.
  method ServeTogether(a: GzipWriter, b: GzipWriter, turns: seq<Turn>, aPanics: bool, more: seq<Action>, bPanics: bool)
    requires Apart(a, b)
    modifies Shared(a, b)
    ensures a.Model() == Ended(a.env, Run(a.env, old(a.Model()), Calls(turns, true)), aPanics)
    ensures b.Model() == Ended(b.env, Run(b.env, old(b.Model()), Calls(turns, false) + more), bPanics)
  {
    hide Run, Ended, Calls, Shared, GzipWriter.Model;
    RunAppend(b.env, b.Model(), Calls(turns, false), more);
    TakeTurns(a, b, turns);
    EndApart(a, b, aPanics);
    FinishAlone(a, b, more, bPanics);
  }
}
