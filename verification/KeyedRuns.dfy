/** The list of contexts as a map keyed by cid, over every run of commands and reports. */
module KeyedRuns {
  import opened Text
  import opened Limits
  import opened DcContexts
  import opened DataCalls
  import opened World
  import opened Dispatch
  import P = Protocol
  import S = Sessions
  import C = AtCommandParser
  import Runs = ContextRuns
  import Persistence

  // ----- What is known before a step

  /** Reports of the modem name a cid. */
  predicate Numbered(s: P.Step) {
    match s
    case SetupAnswer(_, call) => call.cid >= 0
    case CallList(calls) => forall i :: 0 <= i < |calls| ==> calls[i].cid >= 0
    case _ => true
  }

  /** The cid in the file, if a load succeeds. */
  function LoadedCid(w: World, junk: string): Option<int> {
    var r := Persistence.Load(Dc0(w), w.file, junk);
    if r.Some? then Some(r.value.cid) else None
  }

  /** The cid a command is about to give context 0: the argument of an accepted definition, or
      the cid in the file for the three handlers that only load. No other command gives one. */
  function CommandCid(c: Command, parsed: C.Command, w: World, env: Env): Option<int> {
    if c == Cgdcont && parsed.kind == C.Write then
      if S.DefinitionAccepted(parsed.args, env) then Some(env.number(parsed.args[0])) else None
    else if (c == Cgdcont || c == Xgauth) && parsed.kind == C.Query then LoadedCid(w, env.io.junk)
    else if c == Xgauth && parsed.kind == C.Write && S.CredentialsAccepted(parsed.args) then LoadedCid(w, env.io.junk)
    else None
  }

  function NewCid(k: P.Config, w: World, s: P.Step): Option<int> {
    match s
    case HostCommand(text, len, env) =>
      (match TakenFrom(k.commands, text, len)
       case Some((c, parsed)) => CommandCid(c, parsed, w, env)
       case None => None)
    case RadioMode(success, junk) => if success then LoadedCid(w, junk) else None
    case _ => None
  }

  /** Among several contexts, the cid of one of the others, or the undefined one. */
  predicate Clashes(dcs: seq<Dc>, cid: int) {
    |dcs| > 1 && (cid == -1 || exists i :: 1 <= i < |dcs| && dcs[i].cid == cid)
  }

  predicate Collides(k: P.Config, w: World, s: P.Step) {
    NewCid(k, w, s).Some? && Clashes(w.calls.dcs, NewCid(k, w, s).value)
  }

  // ----- One step

  lemma TraceGivesCid(c: Command, parsed: C.Command, w: World, env: Env)
    requires |w.calls.dcs| > 0
    ensures var cid := CommandCid(c, parsed, w, env);
            Runs.Run(StoreOf(w), S.CommandTrace(c, parsed, env)).dc.cid == if cid.Some? then cid.value else Dc0(w).cid
  {
    var trace := S.CommandTrace(c, parsed, env);
    if |trace| == 1 {
      S.RunOne(StoreOf(w), trace[0]);
      assert trace == [trace[0]];
    }
  }

  lemma CommandGivesCid(c: Command, parsed: C.Command, w: World, env: Env)
    requires |w.calls.dcs| > 0
    ensures var cid := CommandCid(c, parsed, w, env);
            Dc0(Execute(c, parsed, w, env).world).cid == if cid.Some? then cid.value else Dc0(w).cid
  {
    S.ExecuteTraced(c, parsed, w, env);
    TraceGivesCid(c, parsed, w, env);
    var after := Execute(c, parsed, w, env).world;
    assert StoreOf(after).dc == Dc0(after);
  }

  /** A step that is no report gives context 0 the cid foreseen, and leaves the others alone. */
  lemma StepGivesCid(k: P.Config, w: World, s: P.Step)
    requires |w.calls.dcs| > 0 && (s.HostCommand? || s.RadioMode?)
    ensures var dcs := P.Apply(k, w, s).calls.dcs;
            var cid := NewCid(k, w, s);
            && |dcs| == |w.calls.dcs| && dcs == w.calls.dcs[0 := dcs[0]]
            && dcs[0].cid == if cid.Some? then cid.value else w.calls.dcs[0].cid
  {
    if s.HostCommand? {
      P.CommandReacts(k.commands, s.text, s.len, w, s.env);
      ReceiveExecutes(k.commands, s.text, s.len, w, s.env);
      var taken := TakenFrom(k.commands, s.text, s.len);
      if taken.Some? {
        CommandGivesCid(taken.value.0, taken.value.1, w, s.env);
      }
    }
  }

  /** A step keeps the contexts keyed by cid exactly when it does not collide; whether it does is
      known before it. Reports never collide. */
  lemma StepKeepsKeyedExactly(k: P.Config, w: World, s: P.Step)
    requires Keyed(w.calls.dcs) && Numbered(s)
    ensures Keyed(P.Apply(k, w, s).calls.dcs) <==> !Collides(k, w, s)
  {
    match s
    case HostCommand(_, _, _) =>
      StepGivesCid(k, w, s);
      RedefineKeepsKeyedExactly(w.calls.dcs, P.Apply(k, w, s).calls.dcs[0]);
    case RadioMode(_, _) =>
      StepGivesCid(k, w, s);
      RedefineKeepsKeyedExactly(w.calls.dcs, P.Apply(k, w, s).calls.dcs[0]);
    case ModemResponse(text, len) =>
      P.ResponseAnswers(k.responses, text, len, w);
    case SetupAnswer(success, call) =>
      UpdateKeepsKeyed(w.calls, call);
    case CallList(calls) =>
      UpdateAllKeepsKeyed(w.calls, calls);
    case _ =>
  }

  // ----- Runs

  /** The proxy as it starts on a file that an earlier run may have left. */
  function Started(file: Option<string>): World {
    P.INITIAL.(file := file)
  }

  /** No step of the run collides. */
  ghost predicate Collisionless(k: P.Config, w: World, steps: seq<P.Step>) {
    |steps| == 0 ||
    (Collisionless(k, w, DropLast(steps)) && !Collides(k, P.Run(k, w, DropLast(steps)), Last(steps)))
  }

  /** The contexts are keyed by cid after every step of the run. */
  ghost predicate AlwaysKeyed(k: P.Config, w: World, steps: seq<P.Step>) {
    Keyed(P.Run(k, w, steps).calls.dcs) && (|steps| > 0 ==> AlwaysKeyed(k, w, DropLast(steps)))
  }

  /** From the start, on any file: no cid is ever held twice, and the undefined one only by a
      single context, exactly when no step collides. */
  lemma {:induction false} RunKeepsKeyedExactly(k: P.Config, file: Option<string>, steps: seq<P.Step>)
    requires forall s <- steps :: Numbered(s)
    ensures AlwaysKeyed(k, Started(file), steps) <==> Collisionless(k, Started(file), steps)
  {
    if |steps| > 0 {
      assert Last(steps) in steps && forall s <- DropLast(steps) :: s in steps;
      RunKeepsKeyedExactly(k, file, DropLast(steps));
      var before := P.Run(k, Started(file), DropLast(steps));
      if Collisionless(k, Started(file), DropLast(steps)) {
        StepKeepsKeyedExactly(k, before, Last(steps));
      }
    }
  }

  predicate IsReport(s: P.Step) {
    !s.HostCommand? && !s.RadioMode?
  }

  /** Over every run without host commands nothing collides. */
  lemma {:induction false} ReportsKeepKeyed(k: P.Config, file: Option<string>, steps: seq<P.Step>)
    requires forall s <- steps :: Numbered(s) && IsReport(s)
    ensures Collisionless(k, Started(file), steps) && AlwaysKeyed(k, Started(file), steps)
  {
    if |steps| > 0 {
      assert Last(steps) in steps && forall s <- DropLast(steps) :: s in steps;
      ReportsKeepKeyed(k, file, DropLast(steps));
    }
    RunKeepsKeyedExactly(k, file, steps);
  }

  // ----- Collisions that happen

  lemma TwoUpdates(c: Calls, first: DataCall, second: DataCall)
    ensures UpdateAll(c, [first, second]) == Update(Update(c, first), second)
  {
    assert DropLast([first, second]) == [first] && |DropLast([first])| == 0;
    assert UpdateAll(c, [first]) == Update(c, first);
  }

  /** The first call takes the fresh context, the second gets a new one. */
  lemma TwoContexts(c: Calls, first: DataCall, second: DataCall)
    requires c.dcs == [FRESH] && first.cid >= 0 && second.cid >= 0 && first.cid != second.cid
    ensures var dcs := Update(Update(c, first), second).dcs;
            Keyed(dcs) && |dcs| == 2 && dcs[1].cid == second.cid
  {
    UpdateKeepsKeyed(c, first);
    UpdateKeepsKeyed(Update(c, first), second);
  }

  lemma ListRun(k: P.Config, w: World, calls: seq<DataCall>)
    ensures P.Run(k, w, [P.CallList(calls)]) == w.(calls := UpdateAll(w.calls, calls))
  {
    assert |DropLast([P.CallList(calls)])| == 0;
  }

  /** Two calls reported to a fresh proxy make two contexts. */
  lemma TwoReports(k: P.Config, file: Option<string>, first: DataCall, second: DataCall)
    requires first.cid >= 0 && second.cid >= 0 && first.cid != second.cid
    ensures var dcs := P.Run(k, Started(file), [P.CallList([first, second])]).calls.dcs;
            Keyed(dcs) && |dcs| == 2 && dcs[1].cid == second.cid
    ensures P.Run(k, Started(file), [P.CallList([first, second])]).file == file
  {
    var c := Started(file).calls;
    ListRun(k, Started(file), [first, second]);
    TwoUpdates(c, first, second);
    TwoContexts(c, first, second);
  }

  lemma DefinitionCid(cid: string, pdpType: string, apn: string, w: World, env: Env)
    requires pdpType in IP_TYPES
    ensures CommandCid(Cgdcont, C.Command(Name(Cgdcont), C.Write, [cid, pdpType, apn]), w, env) == Some(env.number(cid))
  {
  }

  /** A definition with the cid of the second call: two contexts then have it. */
  lemma DefinitionCollides(k: P.Config, first: DataCall, second: DataCall, cid: C.Arg, pdpType: C.Arg, apn: C.Arg,
                           t: string, env: Env)
    requires first.cid >= 0 && second.cid >= 0 && first.cid != second.cid && env.number(cid.text) == second.cid
    requires Netconf in k.commands && C.Terminator(t)
    requires C.CleanForm(C.Assignment([cid, pdpType, apn])) && pdpType.text in IP_TYPES && apn.text != ""
    requires |C.Print(Name(Cgdcont), C.Assignment([cid, pdpType, apn])) + t| <= MAX_SMM_MESSAGE_SIZE
    ensures var text := C.Print(Name(Cgdcont), C.Assignment([cid, pdpType, apn])) + t;
            var w := P.Run(k, P.INITIAL, [P.CallList([first, second])]);
            Keyed(w.calls.dcs) && !Keyed(P.Apply(k, w, P.HostCommand(text, |text|, env)).calls.dcs)
  {
    var text := C.Print(Name(Cgdcont), C.Assignment([cid, pdpType, apn])) + t;
    var w := P.Run(k, P.INITIAL, [P.CallList([first, second])]);
    assert Started(None) == P.INITIAL;
    TwoReports(k, None, first, second);
    S.DefinitionTaken(k.commands, cid, pdpType, apn, t);
    DefinitionCid(cid.text, pdpType.text, apn.text, w, env);
    var parsed := C.Command(Name(Cgdcont), C.Write, [cid.text, pdpType.text, apn.text]);
    TakenCollides(k, w, text, parsed, env, second.cid);
  }

  lemma TakenCollides(k: P.Config, w: World, text: string, parsed: C.Command, env: Env, cid: int)
    requires TakenFrom(k.commands, text, |text|) == Some((Cgdcont, parsed))
    requires CommandCid(Cgdcont, parsed, w, env) == Some(cid)
    requires Keyed(w.calls.dcs) && |w.calls.dcs| == 2 && w.calls.dcs[1].cid == cid
    ensures !Keyed(P.Apply(k, w, P.HostCommand(text, |text|, env)).calls.dcs)
  {
    var s := P.HostCommand(text, |text|, env);
    assert NewCid(k, w, s) == Some(cid) && Clashes(w.calls.dcs, cid);
    StepKeepsKeyedExactly(k, w, s);
  }

  lemma QueryCid(stored: Dc, w: World, env: Env)
    requires Persistence.Loadable(stored) && w.file == Some(Persistence.Record(stored))
    ensures CommandCid(Cgdcont, C.Command(Name(Cgdcont), C.Query, []), w, env) == Some(stored.cid)
  {
    Persistence.LoadRecord(Dc0(w), stored, w.file.value, env.io.junk);
  }

  /** Even asking collides: AT+CGDCONT? gives context 0 the cid of the record. */
  lemma QueryCollides(k: P.Config, first: DataCall, second: DataCall, stored: Dc, t: string, env: Env)
    requires first.cid >= 0 && second.cid >= 0 && first.cid != second.cid && stored.cid == second.cid
    requires Persistence.Loadable(stored) && Netconf in k.commands && C.Terminator(t) && |t| == 1
    ensures var text := C.Print(Name(Cgdcont), C.Read) + t;
            var w := P.Run(k, Started(Some(Persistence.Record(stored))), [P.CallList([first, second])]);
            Keyed(w.calls.dcs) && !Keyed(P.Apply(k, w, P.HostCommand(text, |text|, env)).calls.dcs)
  {
    var file := Persistence.Record(stored);
    var text, parsed := C.Print(Name(Cgdcont), C.Read) + t, C.Command(Name(Cgdcont), C.Query, []);
    var w := P.Run(k, Started(Some(file)), [P.CallList([first, second])]);
    TwoReports(k, Some(file), first, second);
    CleanNames(Cgdcont);
    C.RoundTrip(Name(Cgdcont), C.Read, t);
    PersistentTakenFrom(k.commands, text, parsed, Cgdcont);
    QueryCid(stored, w, env);
    TakenCollides(k, w, text, parsed, env, stored.cid);
  }
}
