/**
 recorder.go: StatusRecorder over a ledger of what net/http's writer was handed. The ledger follows
 net/http's contract: the first final status wins and takes the header with it; a write, a supported
 flush and a non-empty ReadFrom imply 200; after a hijack nothing reaches the response.
 */
module ResponseWriter {
  import opened Text
  import opened Header

  datatype Net = Net(
    header: Header,          // the live header map, the handler's to edit
    status: Option<int>,     // the final status sent
    sent: Header,            // the header as it stood when the status was sent
    infos: seq<int>,         // the 1xx statuses sent before it
    body: string,
    flushes: seq<nat>,       // the body's length at each flush
    superfluous: nat,        // WriteHeader calls ignored because a final status was sent or the connection taken
    hijacked: bool,
    canFlush: bool,
    canHijack: bool)

  predicate IsInfo(code: int) { 100 <= code <= 199 && code != 101 }

  predicate Committed(n: Net) { n.status.Some? || n.hijacked }

  function NetWriteHeader(n: Net, code: int): Net {
    if Committed(n) then n.(superfluous := n.superfluous + 1)
    else if IsInfo(code) then n.(infos := n.infos + [code])
    else n.(status := Some(code), sent := n.header)
  }

  // The 200 a write or a flush implies.
  function NetImplicit(n: Net): Net {
    if Committed(n) then n else NetWriteHeader(n, 200)
  }

  function NetWrite(n: Net, p: string): Net {
    var m := NetImplicit(n);
    if m.hijacked then m else m.(body := m.body + p)
  }

  function NetReadFrom(n: Net, p: string): Net {
    if p == "" then n else NetWrite(n, p)
  }

  function NetFlush(n: Net): Net {
    if !n.canFlush then n
    else
      var m := NetImplicit(n);
      if m.hijacked then m else m.(flushes := m.flushes + [|m.body|])
  }

  predicate HijackWorks(n: Net) { n.canHijack && !n.hijacked }

  function NetHijack(n: Net): Net { if HijackWorks(n) then n.(hijacked := true) else n }

  // ---------- the recorder as a value ----------

  datatype Rec = Rec(status: int, wrote: bool, bare: bool)

  // A recorder and the writer it wraps.
  datatype Under = Under(net: Net, rec: Rec)

  const FRESH_REC := Rec(200, false, false)

  datatype Op = Edit(h: Header) | WriteHeader(code: int) | Write(p: string) | ReadFrom(q: string) | Flush | Hijack

  function SetHeader(u: Under, h: Header): Under { u.(net := u.net.(header := h)) }

  function RecWriteHeader(u: Under, code: int): Under {
    Under(NetWriteHeader(u.net, code), if u.rec.wrote then u.rec else u.rec.(status := code, wrote := true))
  }

  function RecWrite(u: Under, p: string): Under {
    Under(NetWrite(u.net, p), u.rec.(wrote := true))
  }

  function RecReadFrom(u: Under, p: string): Under {
    Under(NetReadFrom(u.net, p), if p == "" then u.rec else u.rec.(wrote := true))
  }

  function RecFlush(u: Under): Under {
    Under(NetFlush(u.net), if u.net.canFlush then u.rec.(wrote := true) else u.rec)
  }

  function RecHijack(u: Under): Under {
    Under(NetHijack(u.net), if HijackWorks(u.net) then u.rec.(bare := !u.rec.wrote, wrote := true) else u.rec)
  }

  function RecStep(u: Under, op: Op): Under {
    match op
    case Edit(h) => SetHeader(u, h)
    case WriteHeader(code) => RecWriteHeader(u, code)
    case Write(p) => RecWrite(u, p)
    case ReadFrom(p) => RecReadFrom(u, p)
    case Flush => RecFlush(u)
    case Hijack => RecHijack(u)
  }

  function RecRun(u: Under, ops: seq<Op>): Under
    decreases |ops|
  {
    if ops == [] then u else RecRun(RecStep(u, ops[0]), ops[1..])
  }

  predicate FreshNet(n: Net) {
    n.status.None? && n.infos == [] && n.body == "" && n.flushes == [] && n.superfluous == 0 && !n.hijacked
  }

  // ---------- what the recorder knows ----------

  // Wrote answers committed, or that a 1xx went out; Status is the committed status, or the first
  // 1xx when one was recorded before it; a bare hijack is one with nothing sent.
  predicate Recorded(u: Under) {
    && u.rec.wrote == (Committed(u.net) || u.net.infos != [])
    && u.rec.bare == (u.net.hijacked && u.net.status.None? && u.net.infos == [])
    && u.rec.status == (if u.net.infos != [] then u.net.infos[0]
                        else if u.net.status.Some? then u.net.status.value
                        else 200)
    && (u.net.infos != [] ==> IsInfo(u.net.infos[0]))
    && (u.net.status.Some? ==> !IsInfo(u.net.status.value))
  }

  lemma StepRecords(u: Under, op: Op)
    requires Recorded(u)
    ensures Recorded(RecStep(u, op))
  {}

  lemma {:induction false} RunRecords(u: Under, ops: seq<Op>)
    requires Recorded(u)
    ensures Recorded(RecRun(u, ops))
    decreases |ops|
  {
    hide RecStep, Recorded;
    if ops != [] {
      StepRecords(u, ops[0]);
      RunRecords(RecStep(u, ops[0]), ops[1..]);
    }
  }

  predicate SwitchedProtocol(r: Rec) { r.status == 101 || r.bare }

  // The connection left HTTP: a 101 went out, or it was taken with nothing sent.
  predicate Switched(n: Net) { n.status == Some(101) || (n.hijacked && n.status.None?) }

  // ---------- when the recorder is right, from the calls alone ----------

  predicate NoInfo(ops: seq<Op>) {
    forall i :: 0 <= i < |ops| && ops[i].WriteHeader? ==> !IsInfo(ops[i].code)
  }

  // A call that commits a response nothing has committed yet.
  predicate Commits(net: Net, op: Op) {
    match op
    case Edit(_) => false
    case WriteHeader(code) => !IsInfo(code)
    case Write(_) => true
    case ReadFrom(p) => p != ""
    case Flush => net.canFlush
    case Hijack => net.canHijack
  }

  // The position of the first call that commits, or the number of calls when none does.
  function FirstCommit(net: Net, ops: seq<Op>): (k: nat)
    ensures k <= |ops| && (k < |ops| ==> Commits(net, ops[k]))
    ensures forall i :: 0 <= i < k ==> !Commits(net, ops[i])
  {
    if ops == [] || Commits(net, ops[0]) then 0 else FirstCommit(net, ops[1..]) + 1
  }

  // The calls that commit by leaving HTTP.
  predicate LeavesHttp(op: Op) { op == WriteHeader(101) || op.Hijack? }

  // Whatever is called on a committed response, its status, its 1xx and who holds it stay.
  lemma {:induction false} CommittedStays(u: Under, ops: seq<Op>)
    requires Committed(u.net)
    ensures var n := RecRun(u, ops).net;
            Committed(n) && n.infos == u.net.infos && Switched(n) == Switched(u.net) && n.status == u.net.status
    decreases |ops|
  {
    if ops != [] { CommittedStays(RecStep(u, ops[0]), ops[1..]); }
  }

  lemma OneCall(u: Under, op: Op)
    requires !Committed(u.net)
    ensures var n := RecStep(u, op).net;
            && n.canFlush == u.net.canFlush && n.canHijack == u.net.canHijack
            && (Committed(n) <==> Commits(u.net, op))
            && (Commits(u.net, op) ==> n.infos == u.net.infos && (Switched(n) <==> LeavesHttp(op)))
            && (!Commits(u.net, op) ==> (n.infos == u.net.infos <==> NoInfo([op])))
            && |n.infos| >= |u.net.infos|
  {
    assert op.WriteHeader? && IsInfo(op.code) ==> !NoInfo([op]) by {
      assert [op][0] == op;
    }
  }

  lemma SameCommits(n: Net, n': Net, ops: seq<Op>)
    requires n.canFlush == n'.canFlush && n.canHijack == n'.canHijack
    ensures FirstCommit(n, ops) == FirstCommit(n', ops)
  {
    if ops != [] { SameCommits(n, n', ops[1..]); }
  }

  lemma NoInfoHead(op: Op, ops: seq<Op>)
    ensures NoInfo([op] + ops) <==> NoInfo([op]) && NoInfo(ops)
  {
    if NoInfo([op] + ops) {
      forall i | 0 <= i < |ops| && ops[i].WriteHeader? ensures !IsInfo(ops[i].code) {
        assert ([op] + ops)[i + 1] == ops[i];
      }
      assert ([op] + ops)[0] == op;
    }
  }

  // What the ledger shows after a run, told from the calls: it is committed exactly when some call
  // commits, a 1xx went out exactly when one was written before that call, and the connection left
  // HTTP exactly when that call is a 101 or a hijack.
  lemma {:induction false} LedgerFromCalls(u: Under, ops: seq<Op>)
    requires !Committed(u.net)
    ensures var n := RecRun(u, ops).net; var k := FirstCommit(u.net, ops);
            && (Committed(n) <==> k < |ops|)
            && (n.infos == [] <==> u.net.infos == [] && NoInfo(ops[..k]))
            && (Switched(n) <==> k < |ops| && LeavesHttp(ops[k]))
    decreases |ops|
  {
    hide RecStep, Commits, LeavesHttp, Committed, Switched, NoInfo;
    if ops == [] {
      NothingSent();
    } else {
      var v := RecStep(u, ops[0]);
      OneCall(u, ops[0]);
      if Commits(u.net, ops[0]) {
        CommittedStays(v, ops[1..]);
        NothingSent();
        assert ops[..0] == [];
      } else {
        LedgerFromCalls(v, ops[1..]);
        SameCommits(u.net, v.net, ops[1..]);
        var k := FirstCommit(u.net, ops[1..]);
        assert ops[..k + 1] == [ops[0]] + ops[1..][..k];
        NoInfoHead(ops[0], ops[1..][..k]);
      }
    }
  }

  lemma NothingSent()
    ensures NoInfo([])
    ensures forall n: Net :: !Committed(n) ==> !Switched(n)
  {}

  // On every run a committed response is reported as written. On runs without a 1xx WriteHeader the
  // converse holds too, Status is the committed status unless the connection was hijacked bare, and
  // switchedProtocol is a 101 or a hijack with nothing sent.
  lemma RecorderIsExact(net: Net, ops: seq<Op>)
    requires FreshNet(net)
    ensures var u := RecRun(Under(net, FRESH_REC), ops);
            && (Committed(u.net) ==> u.rec.wrote)
            && (NoInfo(ops) ==>
                 && u.rec.wrote == Committed(u.net)
                 && (u.net.status.Some? ==> u.rec.status == u.net.status.value)
                 && SwitchedProtocol(u.rec) == Switched(u.net))
  {
    hide RecRun, FirstCommit, IsInfo;
    RunRecords(Under(net, FRESH_REC), ops);
    LedgerFromCalls(Under(net, FRESH_REC), ops);
  }

  // A 1xx WriteHeader is recorded as the status and as a commit, though nothing final was sent. So
  // each promise fails exactly on these calls: Wrote, when a 1xx is written and no call commits;
  // Status, when a 1xx is written before the first call that commits; switchedProtocol, when one is
  // written before a first committing call that is a 101 or a hijack.
  lemma InfoIsTakenForCommit(net: Net, ops: seq<Op>)
    requires FreshNet(net)
    ensures var u := RecRun(Under(net, FRESH_REC), ops); var k := FirstCommit(net, ops);
            && (u.rec.wrote != Committed(u.net) <==> !NoInfo(ops) && k == |ops|)
            && (u.net.status.Some? ==> (u.rec.status != u.net.status.value <==> !NoInfo(ops[..k])))
            && (SwitchedProtocol(u.rec) != Switched(u.net) <==> !NoInfo(ops[..k]) && k < |ops| && LeavesHttp(ops[k]))
  {
    hide RecRun, NoInfo, FirstCommit, LeavesHttp;
    RunRecords(Under(net, FRESH_REC), ops);
    LedgerFromCalls(Under(net, FRESH_REC), ops);
    assert ops[..|ops|] == ops;
  }

  lemma RunOfTwo(u: Under, a: Op, b: Op)
    ensures RecRun(u, [a, b]) == RecStep(RecStep(u, a), b) && RecRun(u, [a]) == RecStep(u, a)
  {
    hide RecStep;
    assert [a, b][1..] == [b] && [b][1..] == [] && [a][1..] == [];
    assert RecRun(RecStep(u, a), [b]) == RecRun(RecStep(RecStep(u, a), b), []);
    assert RecRun(u, [a]) == RecRun(RecStep(u, a), []);
  }

  // Each promise at an input where it fails: a 103 alone, a 103 and a 200, a 103 and a 101.
  lemma EarlyHintsLookWritten(net: Net)
    requires FreshNet(net)
    ensures var u := RecRun(Under(net, FRESH_REC), [WriteHeader(103)]);
            u.rec.wrote && u.rec.status == 103 && !Committed(u.net)
    ensures var u := RecRun(Under(net, FRESH_REC), [WriteHeader(103), WriteHeader(200)]);
            u.rec.status == 103 && u.net.status == Some(200)
    ensures var u := RecRun(Under(net, FRESH_REC), [WriteHeader(103), WriteHeader(101)]);
            !SwitchedProtocol(u.rec) && u.net.status == Some(101) && Switched(u.net)
  {
    RunOfTwo(Under(net, FRESH_REC), WriteHeader(103), WriteHeader(200));
    RunOfTwo(Under(net, FRESH_REC), WriteHeader(103), WriteHeader(101));
  }

  // ---------- the objects ----------

  // net/http's side of the connection.
  class NetWriter {
    var net: Net

    constructor (n: Net)
      ensures net == n
    {
      net := n;
    }

    method WriteHeader(code: int)
      modifies this
      ensures net == NetWriteHeader(old(net), code)
    {
      net := NetWriteHeader(net, code);
    }

    method Write(p: string)
      modifies this
      ensures net == NetWrite(old(net), p)
    {
      net := NetWrite(net, p);
    }

    method ReadFrom(p: string) returns (n: nat)
      modifies this
      ensures net == NetReadFrom(old(net), p) && n == |p|
    {
      net := NetReadFrom(net, p);
      n := |p|;
    }

    // ok is false for http.ErrNotSupported only.
    method Flush() returns (ok: bool)
      modifies this
      ensures net == NetFlush(old(net)) && ok == old(net).canFlush
    {
      ok := net.canFlush;
      net := NetFlush(net);
    }

    method Hijack() returns (ok: bool)
      modifies this
      ensures net == NetHijack(old(net)) && ok == HijackWorks(old(net))
    {
      ok := HijackWorks(net);
      net := NetHijack(net);
    }

    method SetHeader(h: Header)
      modifies this
      ensures net == old(net).(header := h)
    {
      net := net.(header := h);
    }
  }

  class StatusRecorder {
    const w: NetWriter
    var status: int
    var wroteHeader: bool
    var hijackedBare: bool

    function State(): Under
      reads this, w
    {
      Under(w.net, Rec(status, wroteHeader, hijackedBare))
    }

    constructor (w: NetWriter)
      ensures this.w == w && State() == Under(w.net, FRESH_REC)
    {
      this.w := w;
      status, wroteHeader, hijackedBare := 200, false, false;
    }

    method WriteHeader(code: int)
      modifies this, w
      ensures State() == RecWriteHeader(old(State()), code)
    {
      if !wroteHeader {
        status := code;
        wroteHeader := true;
      }
      w.WriteHeader(code);
    }

    method Write(p: string)
      modifies this, w
      ensures State() == RecWrite(old(State()), p)
    {
      wroteHeader := true;
      w.Write(p);
    }

    method FlushError() returns (ok: bool)
      modifies this, w
      ensures State() == RecFlush(old(State())) && ok == old(State()).net.canFlush
    {
      ok := w.Flush();
      if ok {
        wroteHeader := true;
      }
    }

    method Hijack() returns (ok: bool)
      modifies this, w
      ensures State() == RecHijack(old(State())) && ok == HijackWorks(old(State()).net)
    {
      ok := w.Hijack();
      if ok {
        hijackedBare := !wroteHeader;
        wroteHeader := true;
      }
    }

    // The copy is delegated first; only bytes actually written commit.
    method ReadFrom(src: string) returns (n: nat)
      modifies this, w
      ensures State() == RecReadFrom(old(State()), src) && n == |src|
    {
      n := w.ReadFrom(src);
      if n > 0 {
        wroteHeader := true;
      }
    }

    method Status() returns (code: int)
      ensures code == State().rec.status
    {
      return status;
    }

    method Wrote() returns (committed: bool)
      ensures committed == State().rec.wrote
    {
      return wroteHeader;
    }

    method Switched() returns (r: bool)
      ensures r == SwitchedProtocol(State().rec)
    {
      return status == 101 || hijackedBare;
    }
  }
}
