/**
 server.go: Run as interleaved steps of the serving goroutine, the main goroutine with its
 nondeterministic select, and the environment that cancels the context and ends Serve.
 */
module RunProtocol {
  import opened Text

  datatype RunConfig = RunConfig(preDrain: bool, serveExit: bool, onShutdown: bool, grace: int)

  // An error as errors.Is sees it: whether it is http.ErrServerClosed, and a context deadline.
  datatype Err = Nil | Err(serverClosed: bool, deadline: bool, id: nat)

  // What Run returns: an error as it came, or marked with ErrShutdownGraceExpired.
  datatype RunError = Plain(err: Err) | GraceExpired(cause: Err)

  datatype Event =
    | PreDrainRan(deadline: int)
    | ShutdownRan(deadline: int, result: Err)
    | OnShutdownRan(deadline: int)
    | ServeExitRan(deadline: int)

  datatype Server = Serving | Returned(err: Err) | Sent(err: Err)

  datatype Main =
    | Selecting
    | Exiting(err: Err)
    | Draining(deadline: int)
    | ShuttingDown(deadline: int)
    | TearingDown(deadline: int, shutdownErr: Err)
    | Receiving(shutdownErr: Err)
    | Done(result: RunError)

  datatype State = State(
    main: Main, server: Server, channel: Option<Err>, cancelled: bool,
    chosenAt: Option<int>,     // the clock when the select took the cancelled context
    sends: nat, receives: nat, log: seq<Event>)

  const START := State(Selecting, Serving, None, false, None, 0, 0, [])

  datatype Action =
    | ServeReturns(err: Err)
    | Send
    | Cancel
    | SelectServe
    | SelectDone(now: int)
    | RunServeExit(now: int)
    | RunPreDrain
    | RunShutdown(result: Err)
    | RunOnShutdown
    | Receive

  // http.ErrServerClosed is a clean stop.
  function Normalized(err: Err): Err { if err.Err? && err.serverClosed then Nil else err }

  function GraceExpiryError(err: Err): RunError {
    if err.Err? && err.deadline then GraceExpired(err) else Plain(err)
  }

  predicate Enabled(s: State, a: Action) {
    match a
    case ServeReturns(_) => s.server.Serving?
    case Send => s.server.Returned? && s.channel.None?
    case Cancel => true
    case SelectServe => s.main.Selecting? && s.channel.Some?
    case SelectDone(_) => s.main.Selecting? && s.cancelled
    case RunServeExit(_) => s.main.Exiting?
    case RunPreDrain => s.main.Draining?
    case RunShutdown(_) => s.main.ShuttingDown?
    case RunOnShutdown => s.main.TearingDown?
    case Receive => s.main.Receiving? && s.channel.Some?
  }

  function Next(cfg: RunConfig, s: State, a: Action): State
    requires Enabled(s, a)
  {
    match a
    case ServeReturns(err) => s.(server := Returned(Normalized(err)))
    case Send => s.(server := Sent(s.server.err), channel := Some(s.server.err), sends := s.sends + 1)
    case Cancel => s.(cancelled := true)
    case SelectServe => s.(main := Exiting(s.channel.value), channel := None, receives := s.receives + 1)
    case SelectDone(now) => s.(main := Draining(now + cfg.grace), chosenAt := Some(now))
    case RunServeExit(now) =>
      s.(main := Done(Plain(s.main.err)), log := s.log + if cfg.serveExit then [ServeExitRan(now + cfg.grace)] else [])
    case RunPreDrain =>
      s.(main := ShuttingDown(s.main.deadline),
         log := s.log + if cfg.preDrain then [PreDrainRan(s.main.deadline)] else [])
    case RunShutdown(result) =>
      s.(main := TearingDown(s.main.deadline, result), log := s.log + [ShutdownRan(s.main.deadline, result)])
    case RunOnShutdown =>
      s.(main := Receiving(s.main.shutdownErr),
         log := s.log + if cfg.onShutdown then [OnShutdownRan(s.main.deadline)] else [])
    case Receive =>
      s.(main := Done(if s.channel.value != Nil then Plain(s.channel.value) else GraceExpiryError(s.main.shutdownErr)),
         channel := None, receives := s.receives + 1)
  }

  // The state after a schedule; a step that is not enabled is not taken.
  function Exec(cfg: RunConfig, actions: seq<Action>): State {
    if actions == [] then START
    else
      var s := Exec(cfg, actions[..|actions| - 1]);
      if Enabled(s, actions[|actions| - 1]) then Next(cfg, s, actions[|actions| - 1]) else s
  }

  // ---------- the two paths ----------

  function PreDrainLog(cfg: RunConfig, d: int): seq<Event> { if cfg.preDrain then [PreDrainRan(d)] else [] }

  function ShutdownLog(cfg: RunConfig, d: int, e: Err): seq<Event> { PreDrainLog(cfg, d) + [ShutdownRan(d, e)] }

  function GracefulLog(cfg: RunConfig, d: int, e: Err): seq<Event> {
    ShutdownLog(cfg, d, e) + if cfg.onShutdown then [OnShutdownRan(d)] else []
  }

  predicate ExitLog(cfg: RunConfig, log: seq<Event>) {
    if cfg.serveExit then |log| == 1 && log[0].ServeExitRan? else log == []
  }

  // The graceful sequence under one deadline with shutdown error e, a real serve error first.
  predicate EndsWith(cfg: RunConfig, s: State, served: Err, e: Err) {
    && s.main.Done? && s.chosenAt.Some? && s.cancelled
    && s.log == GracefulLog(cfg, s.chosenAt.value + cfg.grace, e)
    && s.main.result == if served != Nil then Plain(served) else GraceExpiryError(e)
  }

  ghost predicate EndsGracefully(cfg: RunConfig, s: State, served: Err) {
    exists e :: EndsWith(cfg, s, served, e)
  }

  predicate EndsByServe(cfg: RunConfig, s: State, served: Err) {
    s.main.Done? && s.chosenAt.None? && ExitLog(cfg, s.log) && s.main.result == Plain(served)
  }

  // What every step keeps. The serve result is in exactly one place: on its way, in the channel, or
  // received.
  ghost predicate Keeps(cfg: RunConfig, s: State) {
    && s.sends == (if s.server.Sent? then 1 else 0)
    && s.receives == (if s.main.Exiting? || s.main.Done? then 1 else 0)
    && s.channel == (if s.server.Sent? && s.receives == 0 then Some(s.server.err) else None)
    && (s.receives == 1 ==> s.server.Sent?)
    && (!s.server.Serving? ==> s.server.err == Normalized(s.server.err))
    && (s.chosenAt.Some? ==> s.cancelled)
    && match s.main
       case Selecting => s.chosenAt.None? && s.log == []
       case Exiting(err) => s.chosenAt.None? && s.log == [] && err == s.server.err
       case Draining(d) => s.chosenAt == Some(d - cfg.grace) && s.log == []
       case ShuttingDown(d) => s.chosenAt == Some(d - cfg.grace) && s.log == PreDrainLog(cfg, d)
       case TearingDown(d, e) => s.chosenAt == Some(d - cfg.grace) && s.log == ShutdownLog(cfg, d, e)
       case Receiving(e) => s.chosenAt.Some? && s.log == GracefulLog(cfg, s.chosenAt.value + cfg.grace, e)
       case Done(_) => EndsGracefully(cfg, s, s.server.err) || EndsByServe(cfg, s, s.server.err)
  }

  lemma StepKeeps(cfg: RunConfig, s: State, a: Action)
    requires Keeps(cfg, s) && Enabled(s, a)
    ensures Keeps(cfg, Next(cfg, s, a))
  {
    hide GraceExpiryError, Normalized, GracefulLog, ExitLog;
    NormalizedOnce();
    match a {
      case Receive => assert EndsWith(cfg, Next(cfg, s, a), s.server.err, s.main.shutdownErr);
      case RunServeExit(now) => ExitLogs(cfg, now);
      case RunOnShutdown => GracefulLogs(cfg, s.main.deadline, s.main.shutdownErr);
      case RunPreDrain => assert [] + PreDrainLog(cfg, s.main.deadline) == PreDrainLog(cfg, s.main.deadline);
      case _ =>
    }
  }

  lemma ExitLogs(cfg: RunConfig, now: int)
    ensures ExitLog(cfg, [] + if cfg.serveExit then [ServeExitRan(now + cfg.grace)] else [])
  {}

  lemma GracefulLogs(cfg: RunConfig, d: int, e: Err)
    ensures GracefulLog(cfg, d, e) == ShutdownLog(cfg, d, e) + if cfg.onShutdown then [OnShutdownRan(d)] else []
  {}

  lemma NormalizedOnce()
    ensures forall e :: Normalized(Normalized(e)) == Normalized(e)
  {}

  lemma {:induction false} EveryScheduleKeeps(cfg: RunConfig, actions: seq<Action>)
    ensures Keeps(cfg, Exec(cfg, actions))
  {
    hide Keeps, Next, Enabled;
    if actions == [] {
      StartKeeps(cfg);
    } else {
      var s := Exec(cfg, actions[..|actions| - 1]);
      EveryScheduleKeeps(cfg, actions[..|actions| - 1]);
      if Enabled(s, actions[|actions| - 1]) { StepKeeps(cfg, s, actions[|actions| - 1]); }
    }
  }

  lemma StartKeeps(cfg: RunConfig)
    ensures Keeps(cfg, START)
  {}

  // On every schedule that ends, exactly one of the two paths ran: pre-drain, Shutdown and onShutdown
  // in that order under one deadline, or the serve-exit hook alone. The serve result was sent once and
  // received once. A real serve error wins over the shutdown error.
  lemma RunEndsOneWay(cfg: RunConfig, actions: seq<Action>)
    requires Exec(cfg, actions).main.Done?
    ensures var s := Exec(cfg, actions);
            && s.sends == 1 && s.receives == 1 && s.server.Sent? && s.channel.None?
            && (EndsGracefully(cfg, s, s.server.err) <==> !EndsByServe(cfg, s, s.server.err))
  {
    EveryScheduleKeeps(cfg, actions);
  }

  // A result is marked as the grace running out exactly when the graceful path ran, Serve ended
  // cleanly and the shutdown's own error is a deadline: a deadline in a serve error is never marked.
  lemma OnlyShutdownDeadlinesMarked(cfg: RunConfig, actions: seq<Action>)
    requires Exec(cfg, actions).main.Done?
    ensures var s := Exec(cfg, actions);
            && s.server.Sent?
            && (s.main.result.GraceExpired? <==>
              s.server.err == Nil && exists d, e :: ShutdownRan(d, e) in s.log && e.Err? && e.deadline)
  {
    hide Exec, EndsWith, EndsByServe;
    EveryScheduleKeeps(cfg, actions);
    var s := Exec(cfg, actions);
    if EndsGracefully(cfg, s, s.server.err) {
      var e :| EndsWith(cfg, s, s.server.err, e);
      GracefulMark(cfg, s, s.server.err, e);
    } else {
      ServeMark(cfg, s, s.server.err);
    }
  }

  lemma GracefulMark(cfg: RunConfig, s: State, served: Err, e: Err)
    requires EndsWith(cfg, s, served, e)
    ensures s.main.result.GraceExpired? <==>
              served == Nil && exists d, e' :: ShutdownRan(d, e') in s.log && e'.Err? && e'.deadline
  {
    hide GracefulLog;
    GracefulHolds(cfg, s.chosenAt.value + cfg.grace, e);
    assert ShutdownRan(s.chosenAt.value + cfg.grace, e) in s.log;
  }

  lemma ServeMark(cfg: RunConfig, s: State, served: Err)
    requires EndsByServe(cfg, s, served)
    ensures !s.main.result.GraceExpired? && forall d, e :: ShutdownRan(d, e) !in s.log
  {}

  lemma GracefulHolds(cfg: RunConfig, d: int, e: Err)
    ensures forall d', e' :: ShutdownRan(d', e') in GracefulLog(cfg, d, e) <==> d' == d && e' == e
  {
    var log := GracefulLog(cfg, d, e);
    var k := if cfg.preDrain then 1 else 0;
    assert log[k] == ShutdownRan(d, e);
  }

  // ---------- Run ends ----------

  // Run is waiting for Serve alone: to be told to stop, or after its shutdown for Serve to return.
  predicate AwaitsServe(s: State) {
    s.server.Serving? && (s.main.Receiving? || (s.main.Selecting? && !s.cancelled))
  }

  // The steps Run's two goroutines take themselves.
  predicate OwnStep(a: Action) { !a.ServeReturns? && !a.Cancel? }

  // Run is never stuck: until it is done, one of its own two goroutines can take a step exactly when
  // Run is not waiting for Serve to return; and the final receive waits for nothing but the send.
  lemma NeverStuck(cfg: RunConfig, actions: seq<Action>)
    requires !Exec(cfg, actions).main.Done?
    ensures var s := Exec(cfg, actions);
            (exists a :: Enabled(s, a) && OwnStep(a)) <==> !AwaitsServe(s)
    ensures var s := Exec(cfg, actions);
            s.main.Receiving? && s.server.Sent? ==> Enabled(s, Receive)
  {
    hide Exec;
    EveryScheduleKeeps(cfg, actions);
    var s := Exec(cfg, actions);
    if !AwaitsServe(s) {
      var a := Pick(cfg, s);
    }
  }

  lemma Pick(cfg: RunConfig, s: State) returns (a: Action)
    requires Keeps(cfg, s) && !s.main.Done? && !AwaitsServe(s)
    ensures Enabled(s, a) && OwnStep(a)
  {
    if s.server.Returned? && s.channel.None? {
      a := Send;
    } else {
      match s.main {
        case Selecting => a := if s.cancelled then SelectDone(0) else SelectServe;
        case Exiting(_) => a := RunServeExit(0);
        case Draining(_) => a := RunPreDrain;
        case ShuttingDown(_) => a := RunShutdown(Nil);
        case TearingDown(_, _) => a := RunOnShutdown;
        case Receiving(_) => a := Receive;
      }
    }
  }

  // How many steps Run can still take, cancellation aside.
  function Left(s: State): nat {
    (match s.main
     case Selecting => 5
     case Exiting(_) => 1
     case Draining(_) => 4
     case ShuttingDown(_) => 3
     case TearingDown(_, _) => 2
     case Receiving(_) => 1
     case Done(_) => 0)
    + match s.server case Serving => 2 case Returned(_) => 1 case Sent(_) => 0
  }

  lemma StepTakes(cfg: RunConfig, s: State, a: Action)
    requires Enabled(s, a)
    ensures if a.Cancel? then Left(Next(cfg, s, a)) == Left(s) else Left(Next(cfg, s, a)) < Left(s)
  {}

  // The steps a schedule takes, cancellation aside.
  function Taken(cfg: RunConfig, actions: seq<Action>): nat {
    if actions == [] then 0
    else
      var before, a := actions[..|actions| - 1], actions[|actions| - 1];
      Taken(cfg, before) + if Enabled(Exec(cfg, before), a) && !a.Cancel? then 1 else 0
  }

  // Run always ends: no schedule takes more than seven steps, cancellation aside, and one that leaves
  // no other step to take is done.
  lemma {:induction false} RunTerminates(cfg: RunConfig, actions: seq<Action>)
    ensures Taken(cfg, actions) + Left(Exec(cfg, actions)) <= 7
    ensures var s := Exec(cfg, actions);
            (forall a :: Enabled(s, a) ==> a.Cancel?) ==> s.main.Done?
  {
    hide Enabled, Next, Left, AwaitsServe;
    if actions == [] {
      StartLeft();
    } else {
      var before, a := actions[..|actions| - 1], actions[|actions| - 1];
      RunTerminates(cfg, before);
      if Enabled(Exec(cfg, before), a) { StepTakes(cfg, Exec(cfg, before), a); }
    }
    var s := Exec(cfg, actions);
    if !s.main.Done? {
      NeverStuck(cfg, actions);
      ServeMayReturn(s);
    }
  }

  lemma StartLeft()
    ensures Left(START) == 7
  {}

  lemma ServeMayReturn(s: State)
    ensures AwaitsServe(s) ==> Enabled(s, ServeReturns(Nil))
  {}
}
