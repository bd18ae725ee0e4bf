/**
 server.go: silentConns, the connections that have sent no request, closed at once when a shutdown
 starts. The locked sections are methods of an object; the interleavings of those sections with the
 closes that run outside the lock are a transition system over them.
 */
module SilentConns {
  import opened Text

  type Conn = nat

  datatype ConnState = StateNew | StateActive | StateIdle | StateHijacked | StateClosed

  // conns is None for the nil map.
  datatype Silent = Silent(conns: Option<set<Conn>>, shutdown: bool)

  // The map is there to be written until the sweep takes it away.
  predicate Writable(s: Silent) { s.shutdown || s.conns.Some? }

  function Tracked(s: Silent, conn: Conn, state: ConnState): Silent
    requires Writable(s)
  {
    if state == StateNew && s.shutdown then s
    else if state == StateNew then s.(conns := Some(s.conns.value + {conn}))
    else if s.conns.Some? then s.(conns := Some(s.conns.value - {conn}))
    else s
  }

  class SilentSet {
    var conns: Option<set<Conn>>
    var shutdown: bool

    function State(): Silent
      reads this
    {
      Silent(conns, shutdown)
    }

    constructor ()
      ensures State() == Silent(Some({}), false)
    {
      conns, shutdown := Some({}), false;
    }

    // The locked section of track; the caller closes a late connection after unlocking.
    method Track(conn: Conn, state: ConnState) returns (lateNew: bool)
      requires Writable(State())
      modifies this
      ensures State() == Tracked(old(State()), conn, state) && Writable(State())
      ensures lateNew <==> state == StateNew && old(shutdown)
    {
      lateNew := state == StateNew && shutdown;
      if lateNew {
      } else if state == StateNew {
        conns := Some(conns.value + {conn});
      } else if conns.Some? {
        conns := Some(conns.value - {conn});
      }
    }

    // The locked section of closeAll; the caller closes what it returns after unlocking.
    method Sweep() returns (swept: set<Conn>)
      requires Writable(State())
      modifies this
      ensures State() == Silent(None, true) && Writable(State())
      ensures swept == if old(conns).Some? then old(conns).value else {}
    {
      shutdown := true;
      swept := if conns.Some? then conns.value else {};
      conns := None;
    }
  }

  // ---------- interleavings ----------

  // Threads between their locked section and the close that follows it: late holds the closes track
  // owes, sweeping those closeAll owes.
  datatype System = System(silent: Silent, late: multiset<Conn>, sweeping: set<Conn>, closed: set<Conn>)

  datatype Action = Report(conn: Conn, state: ConnState) | LateClose(late: Conn) | Shutdown | SweepClose(swept: Conn)

  // A step the scheduler may take; a close nobody owes is not one, and changes nothing.
  function Next(s: System, a: Action): System
    requires Writable(s.silent)
    ensures Writable(Next(s, a).silent)
  {
    match a
    case Report(c, st) =>
      s.(silent := Tracked(s.silent, c, st),
         late := if st == StateNew && s.silent.shutdown then s.late + multiset{c} else s.late)
    case Shutdown =>
      s.(silent := Silent(None, true),
         sweeping := s.sweeping + if s.silent.conns.Some? then s.silent.conns.value else {})
    case LateClose(c) => if c in s.late then s.(late := s.late - multiset{c}, closed := s.closed + {c}) else s
    case SweepClose(c) => if c in s.sweeping then s.(sweeping := s.sweeping - {c}, closed := s.closed + {c}) else s
  }

  const START := System(Silent(Some({}), false), multiset{}, {}, {})

  function Exec(actions: seq<Action>): (s: System)
    ensures Writable(s.silent)
  {
    if actions == [] then START else Next(Exec(actions[..|actions| - 1]), actions[|actions| - 1])
  }

  predicate Quiescent(s: System) { s.late == multiset{} && s.sweeping == {} }

  // ---------- what the reports say, without the lock ----------

  // The connections last reported New.
  function LastNew(actions: seq<Action>): set<Conn> {
    if actions == [] then {}
    else
      var before, last := LastNew(actions[..|actions| - 1]), actions[|actions| - 1];
      if !last.Report? then before
      else if last.state == StateNew then before + {last.conn}
      else before - {last.conn}
  }

  predicate HasSwept(actions: seq<Action>) { Shutdown in actions }

  // The connections New when the first sweep ran.
  function NewAtSweep(actions: seq<Action>): set<Conn> {
    if actions == [] then {}
    else
      var before, last := actions[..|actions| - 1], actions[|actions| - 1];
      if HasSwept(before) then NewAtSweep(before)
      else if last == Shutdown then LastNew(before)
      else {}
  }

  // The connections reported New after it.
  function NewAfterSweep(actions: seq<Action>): set<Conn> {
    if actions == [] then {}
    else
      var before, last := actions[..|actions| - 1], actions[|actions| - 1];
      NewAfterSweep(before) + if HasSwept(before) && last.Report? && last.state == StateNew then {last.conn} else {}
  }

  // The system agrees with the reports.
  ghost predicate Agrees(s: System, actions: seq<Action>) {
    && s.silent.shutdown == HasSwept(actions)
    && (!HasSwept(actions) ==> s.silent.conns == Some(LastNew(actions)) && s.closed == {} && Quiescent(s))
    && (HasSwept(actions) ==> s.silent.conns == None)
    && forall c :: c in s.closed || c in s.late || c in s.sweeping <==>
                   c in NewAtSweep(actions) || c in NewAfterSweep(actions)
  }

  // One more action, as the reports see it.
  lemma ActionsStep(before: seq<Action>, a: Action)
    ensures var all := before + [a];
            && (HasSwept(all) <==> HasSwept(before) || a == Shutdown)
            && LastNew(all) == (if !a.Report? then LastNew(before)
                                else if a.state == StateNew then LastNew(before) + {a.conn}
                                else LastNew(before) - {a.conn})
            && NewAtSweep(all) ==
                 (if HasSwept(before) then NewAtSweep(before) else if a == Shutdown then LastNew(before) else {})
            && NewAfterSweep(all) ==
               NewAfterSweep(before) + (if HasSwept(before) && a.Report? && a.state == StateNew then {a.conn} else {})
  {
    assert (before + [a])[..|before|] == before;
  }

  lemma ReportAgrees(s: System, before: seq<Action>, c: Conn, st: ConnState)
    requires Writable(s.silent) && Agrees(s, before)
    ensures Agrees(Next(s, Report(c, st)), before + [Report(c, st)])
  {
    hide HasSwept, LastNew, NewAtSweep, NewAfterSweep;
    ActionsStep(before, Report(c, st));
    if !HasSwept(before) { NothingBeforeSweep(before); }
  }

  lemma ShutdownAgrees(s: System, before: seq<Action>)
    requires Writable(s.silent) && Agrees(s, before)
    ensures Agrees(Next(s, Shutdown), before + [Shutdown])
  {
    hide HasSwept, LastNew, NewAtSweep, NewAfterSweep;
    ActionsStep(before, Shutdown);
    if !HasSwept(before) { NothingBeforeSweep(before); }
  }

  lemma CloseAgrees(s: System, before: seq<Action>, a: Action)
    requires Writable(s.silent) && Agrees(s, before) && (a.LateClose? || a.SweepClose?)
    ensures Agrees(Next(s, a), before + [a])
  {
    hide HasSwept, LastNew, NewAtSweep, NewAfterSweep;
    ActionsStep(before, a);
    if !HasSwept(before) { NothingBeforeSweep(before); }
  }

  // In every interleaving: the set holds exactly the connections last reported New until the sweep and
  // is gone after it; what is closed or owed a close is exactly what was New at the sweep or reported
  // New after it.
  lemma {:induction false} EveryInterleaving(actions: seq<Action>)
    ensures Agrees(Exec(actions), actions)
  {
    hide Agrees, Next;
    if actions == [] {
      StartAgrees();
    } else {
      var before, last := actions[..|actions| - 1], actions[|actions| - 1];
      EveryInterleaving(before);
      assert actions == before + [last];
      match last {
        case Report(c, st) => ReportAgrees(Exec(before), before, c, st);
        case Shutdown => ShutdownAgrees(Exec(before), before);
        case _ => CloseAgrees(Exec(before), before, last);
      }
    }
  }

  lemma StartAgrees()
    ensures Agrees(START, [])
  {}

  lemma {:induction false} NothingBeforeSweep(actions: seq<Action>)
    requires !HasSwept(actions)
    ensures NewAtSweep(actions) == {} && NewAfterSweep(actions) == {}
  {
    if actions != [] {
      var before, last := actions[..|actions| - 1], actions[|actions| - 1];
      assert last in actions;
      assert !HasSwept(before);
      NothingBeforeSweep(before);
    }
  }

  // So once every owed close has run, exactly those connections are closed: no silent one is left, and
  // none that had left New by the sweep, and was not reported New again, is closed by this code.
  lemma QuiescentIsExact(actions: seq<Action>)
    requires Quiescent(Exec(actions))
    ensures Exec(actions).closed == NewAtSweep(actions) + NewAfterSweep(actions)
  {
    EveryInterleaving(actions);
    assert forall c :: c !in Exec(actions).late && c !in Exec(actions).sweeping;
  }
}
