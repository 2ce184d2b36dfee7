/** The persisted context under arbitrary runs: whatever text the host sends and whatever the
    modem reports, each step acts on context 0 and its record as a run of ContextRuns. */
module Sessions {
  import opened Text
  import opened Limits
  import opened DcContexts
  import opened DataCalls
  import opened World
  import opened Dispatch
  import P = Protocol
  import C = AtCommandParser
  import Runs = ContextRuns

  // ----- What a step does to context 0 and its record

  predicate DefinitionAccepted(args: seq<string>, env: Env) {
    |args| >= 3 && args[1] in IP_TYPES && (|args| >= 4 ==> env.validAddress(args[3]))
  }

  predicate CredentialsAccepted(args: seq<string>) {
    |args| >= 4 && |args[2]| <= Runs.AUTH_NAME_PWD_LEN && |args[3]| <= Runs.AUTH_NAME_PWD_LEN
  }

  function CommandTrace(c: Command, parsed: C.Command, env: Env): seq<Runs.Step> {
    var args := parsed.args;
    if c != Cgdcont && c != Xgauth then []
    else if parsed.kind == C.Query then [Runs.QueryStep(env.io.junk)]
    else if parsed.kind != C.Write then []
    else if c == Cgdcont && DefinitionAccepted(args, env) then
      [Runs.DefineStep(env.number(args[0]), args[1], args[2], env.io)]
    else if c == Xgauth && CredentialsAccepted(args) then
      [Runs.AuthenticateStep(env.number(args[0]), env.number(args[1]), args[2], args[3], env.io)]
    else []
  }

  /** Reports that context 0 receives. */
  function ReportTrace(c: Calls, call: DataCall): seq<Runs.Step> {
    if |c.dcs| > 0 && Fits(c.dcs[0], call.cid) then [Runs.ReportStep(call)] else []
  }

  function ListTrace(c: Calls, calls: seq<DataCall>): seq<Runs.Step> {
    if |calls| == 0 then []
    else ListTrace(c, DropLast(calls)) + ReportTrace(UpdateAll(c, DropLast(calls)), Last(calls))
  }

  function StepTrace(k: P.Config, w: World, s: P.Step): seq<Runs.Step> {
    match s
    case HostCommand(text, len, env) =>
      (match TakenFrom(k.commands, text, len)
       case Some((c, parsed)) => CommandTrace(c, parsed, env)
       case None => [])
    case SetupAnswer(success, call) => if success then ReportTrace(w.calls, call) else []
    case CallList(calls) => ListTrace(w.calls, calls)
    case RadioMode(success, junk) => if success then [Runs.QueryStep(junk)] else []
    case _ => []
  }

  function Trace(k: P.Config, w: World, steps: seq<P.Step>): seq<Runs.Step> {
    if |steps| == 0 then []
    else Trace(k, w, DropLast(steps)) + StepTrace(k, P.Run(k, w, DropLast(steps)), Last(steps))
  }

  // ----- The projection is faithful

  lemma RunOne(st: Runs.Store, s: Runs.Step)
    ensures Runs.Run(st, [s]) == Runs.Apply(st, s).store
  {
    assert |DropLast([s])| == 0;
  }

  lemma {:induction false} RunConcat(st: Runs.Store, a: seq<Runs.Step>, b: seq<Runs.Step>)
    ensures Runs.Run(st, a + b) == Runs.Run(Runs.Run(st, a), b)
  {
    if |b| == 0 {
      assert a + b == a;
    } else {
      RunConcat(st, a, DropLast(b));
      assert DropLast(a + b) == a + DropLast(b);
    }
  }

  lemma StoreOfWith(w: World, st: Runs.Store)
    requires |w.calls.dcs| > 0
    ensures StoreOf(WithStore(w, st)) == st
  {
  }

  lemma QueryTrace(w: World, env: Env)
    requires |w.calls.dcs| > 0
    ensures StoreOf(CgdcontQuery(w, env).world) == Runs.Run(StoreOf(w), [Runs.QueryStep(env.io.junk)])
    ensures StoreOf(XgauthQuery(w, env).world) == Runs.Run(StoreOf(w), [Runs.QueryStep(env.io.junk)])
  {
    RunOne(StoreOf(w), Runs.QueryStep(env.io.junk));
    StoreOfWith(w, Runs.Refresh(StoreOf(w), env.io.junk));
  }

  lemma DefineTrace(args: seq<string>, w: World, env: Env)
    requires |w.calls.dcs| > 0
    ensures StoreOf(CgdcontWrite(args, w, env).world)
         == Runs.Run(StoreOf(w), CommandTrace(Cgdcont, C.Command("", C.Write, args), env))
  {
    if DefinitionAccepted(args, env) {
      var s := Runs.DefineStep(env.number(args[0]), args[1], args[2], env.io);
      RunOne(StoreOf(w), s);
      StoreOfWith(w, Runs.Apply(StoreOf(w), s).store);
    }
  }

  lemma AuthenticateTrace(args: seq<string>, w: World, env: Env)
    requires |w.calls.dcs| > 0
    ensures StoreOf(XgauthWrite(args, w, env).world)
         == Runs.Run(StoreOf(w), CommandTrace(Xgauth, C.Command("", C.Write, args), env))
  {
    if CredentialsAccepted(args) {
      var s := Runs.AuthenticateStep(env.number(args[0]), env.number(args[1]), args[2], args[3], env.io);
      RunOne(StoreOf(w), s);
      StoreOfWith(w, Runs.Apply(StoreOf(w), s).store);
    }
  }

  lemma TestKeepsStore(c: Command, w: World)
    ensures StoreOf(ExecuteAsTest(c, w).world) == StoreOf(w)
  {
  }

  lemma OtherQueryKeepsStore(c: Command, w: World, env: Env)
    requires c != Cgdcont && c != Xgauth
    ensures StoreOf(ExecuteAsQuery(c, w, env).world) == StoreOf(w)
  {
  }

  lemma OtherWriteKeepsStore(c: Command, args: seq<string>, w: World, env: Env)
    requires c != Cgdcont && c != Xgauth
    ensures StoreOf(ExecuteAsWrite(c, args, w, env).world) == StoreOf(w)
  {
  }

  /** No other handler touches context 0 or the file. */
  lemma OthersKeepStore(c: Command, args: seq<string>, w: World, env: Env)
    ensures StoreOf(ExecuteAsTest(c, w).world) == StoreOf(w)
    ensures c != Cgdcont && c != Xgauth ==>
              && StoreOf(ExecuteAsQuery(c, w, env).world) == StoreOf(w)
              && StoreOf(ExecuteAsWrite(c, args, w, env).world) == StoreOf(w)
  {
    TestKeepsStore(c, w);
    if c != Cgdcont && c != Xgauth {
      OtherQueryKeepsStore(c, w, env);
      OtherWriteKeepsStore(c, args, w, env);
    }
  }

  lemma QueryTraced(c: Command, parsed: C.Command, w: World, env: Env)
    requires |w.calls.dcs| > 0 && parsed.kind == C.Query
    ensures StoreOf(ExecuteAsQuery(c, w, env).world) == Runs.Run(StoreOf(w), CommandTrace(c, parsed, env))
  {
    if c == Cgdcont || c == Xgauth {
      QueryTrace(w, env);
    } else {
      OthersKeepStore(c, parsed.args, w, env);
    }
  }

  lemma WriteTraced(c: Command, parsed: C.Command, w: World, env: Env)
    requires |w.calls.dcs| > 0 && parsed.kind == C.Write
    ensures StoreOf(ExecuteAsWrite(c, parsed.args, w, env).world) == Runs.Run(StoreOf(w), CommandTrace(c, parsed, env))
  {
    if c == Cgdcont {
      DefineTrace(parsed.args, w, env);
    } else if c == Xgauth {
      AuthenticateTrace(parsed.args, w, env);
    } else {
      OthersKeepStore(c, parsed.args, w, env);
    }
  }

  lemma ExecuteTraced(c: Command, parsed: C.Command, w: World, env: Env)
    requires |w.calls.dcs| > 0
    ensures StoreOf(Execute(c, parsed, w, env).world) == Runs.Run(StoreOf(w), CommandTrace(c, parsed, env))
  {
    match parsed.kind
    case Query => QueryTraced(c, parsed, w, env);
    case Write => WriteTraced(c, parsed, w, env);
    case _ => OthersKeepStore(c, parsed.args, w, env);
  }

  lemma ReportTraced(c: Calls, file: Option<string>, call: DataCall)
    requires |c.dcs| > 0
    ensures |Update(c, call).dcs| > 0
    ensures Runs.Store(Update(c, call).dcs[0], file) == Runs.Run(Runs.Store(c.dcs[0], file), ReportTrace(c, call))
  {
    RunOne(Runs.Store(c.dcs[0], file), Runs.ReportStep(call));
  }

  lemma {:induction false} ListTraced(c: Calls, file: Option<string>, calls: seq<DataCall>)
    requires |c.dcs| > 0
    ensures |UpdateAll(c, calls).dcs| > 0
    ensures Runs.Store(UpdateAll(c, calls).dcs[0], file) == Runs.Run(Runs.Store(c.dcs[0], file), ListTrace(c, calls))
  {
    if |calls| > 0 {
      var before, call := UpdateAll(c, DropLast(calls)), Last(calls);
      ListTraced(c, file, DropLast(calls));
      ReportTraced(before, file, call);
      RunConcat(Runs.Store(c.dcs[0], file), ListTrace(c, DropLast(calls)), ReportTrace(before, call));
    }
  }

  lemma AnswerKeepsStore(w: World, success: bool)
    ensures StoreOf(AnswerTop(w, success)) == StoreOf(w) && AnswerTop(w, success).calls == w.calls
  {
  }

  /** One step of the proxy is a run of its trace on context 0 and the file. */
  lemma StepTraced(k: P.Config, w: World, s: P.Step)
    requires |w.calls.dcs| > 0
    ensures |P.Apply(k, w, s).calls.dcs| > 0
    ensures StoreOf(P.Apply(k, w, s)) == Runs.Run(StoreOf(w), StepTrace(k, w, s))
  {
    match s
    case HostCommand(text, len, env) =>
      P.CommandReacts(k.commands, text, len, w, env);
      ReceiveExecutes(k.commands, text, len, w, env);
      var taken := TakenFrom(k.commands, text, len);
      if taken.Some? {
        ExecuteTraced(taken.value.0, taken.value.1, w, env);
      }
    case ModemResponse(text, len) =>
      P.ResponseAnswers(k.responses, text, len, w);
    case SetupAnswer(success, call) =>
      var w1 := if success then w.(calls := Update(w.calls, call)) else w;
      AnswerKeepsStore(w1, success);
      ReportTraced(w.calls, w.file, call);
    case ReleaseAnswer(success) =>
      AnswerKeepsStore(w, success);
    case CallList(calls) =>
      ListTraced(w.calls, w.file, calls);
    case RadioMode(success, junk) =>
      RunOne(StoreOf(w), Runs.QueryStep(junk));
      StoreOfWith(w, Runs.Refresh(StoreOf(w), junk));
    case _ =>
  }

  /** So is a whole run. */
  lemma {:induction false} RunTraced(k: P.Config, w: World, steps: seq<P.Step>)
    requires |w.calls.dcs| > 0
    ensures |P.Run(k, w, steps).calls.dcs| > 0
    ensures StoreOf(P.Run(k, w, steps)) == Runs.Run(StoreOf(w), Trace(k, w, steps))
  {
    if |steps| > 0 {
      var before := P.Run(k, w, DropLast(steps));
      RunTraced(k, w, DropLast(steps));
      StepTraced(k, before, Last(steps));
      RunConcat(StoreOf(w), Trace(k, w, DropLast(steps)), StepTrace(k, before, Last(steps)));
    }
  }

  // ----- Definitions survive any run

  /** A run whose accepted arguments can be read back and whose loads stay in their variables. */
  ghost predicate Remembers(k: P.Config, w: World, steps: seq<P.Step>, m: nat) {
    && |w.calls.dcs| > 0 && Runs.AuthBounded(Dc0(w), m) && Runs.AUTH_NAME_PWD_LEN <= m <= Runs.TOKEN_LEN
    && Runs.RunOk(StoreOf(w), Trace(k, w, steps), m)
    && Runs.LastWrite(Trace(k, w, steps)).Some?
  }

  /** Context 0 with the definition that was written last. */
  function Redefined(dc: Dc, e: Runs.Expected): Dc {
    dc.(cid := e.cid, pdpType := e.pdpType, apn := e.apn)
  }

  lemma DefinitionParsed(k: P.Config, w: World, text: string, parsed: C.Command, env: Env)
    requires TakenFrom(k.commands, text, |text|) == Some((Cgdcont, parsed))
    requires parsed.kind == C.Write && |parsed.args| == 3 && parsed.args[1] in IP_TYPES
    ensures StepTrace(k, w, P.HostCommand(text, |text|, env)) ==
            [Runs.DefineStep(env.number(parsed.args[0]), parsed.args[1], parsed.args[2], env.io)]
  {
  }

  /** A printed definition reaches its handler with its three arguments. */
  lemma DefinitionTaken(children: seq<Extension>, cid: C.Arg, pdpType: C.Arg, apn: C.Arg, t: string)
    requires Netconf in children && C.Terminator(t)
    requires C.CleanForm(C.Assignment([cid, pdpType, apn])) && apn.text != ""
    ensures var text := C.Print(Name(Cgdcont), C.Assignment([cid, pdpType, apn])) + t;
            TakenFrom(children, text, |text|) ==
            if |text| > MAX_SMM_MESSAGE_SIZE then None
            else Some((Cgdcont, C.Command(Name(Cgdcont), C.Write, [cid.text, pdpType.text, apn.text])))
  {
    var form := C.Assignment([cid, pdpType, apn]);
    var args := [cid.text, pdpType.text, apn.text];
    CleanNames(Cgdcont);
    C.RoundTrip(Name(Cgdcont), form, t);
    assert C.ExpectedArgs(form) == args;
    PersistentTakenFrom(children, C.Print(Name(Cgdcont), form) + t, C.Command(Name(Cgdcont), C.Write, args), Cgdcont);
  }

  /** Typing a definition is one definition, unless the line is too long and is refused: for every
      number, type and name without delimiters that the buffer can hold, quoted or not, and every
      line end. */
  lemma DefinitionTyped(k: P.Config, w: World, cid: C.Arg, pdpType: C.Arg, apn: C.Arg, t: string, env: Env)
    requires Netconf in k.commands && C.Terminator(t)
    requires C.CleanForm(C.Assignment([cid, pdpType, apn])) && pdpType.text in IP_TYPES && apn.text != ""
    requires |cid.text| < MSG_BUF_SIZE && |apn.text| < MSG_BUF_SIZE
    ensures var text := C.Print(Name(Cgdcont), C.Assignment([cid, pdpType, apn])) + t;
            StepTrace(k, w, P.HostCommand(text, |text|, env)) ==
            if |text| > MAX_SMM_MESSAGE_SIZE then []
            else [Runs.DefineStep(env.number(cid.text), pdpType.text, apn.text, env.io)]
    ensures C.TokensFit(C.Print(Name(Cgdcont), C.Assignment([cid, pdpType, apn])) + t)
  {
    var text := C.Print(Name(Cgdcont), C.Assignment([cid, pdpType, apn])) + t;
    CleanNames(Cgdcont);
    C.PrintedFits(Name(Cgdcont), [cid, pdpType, apn], t);
    DefinitionTaken(k.commands, cid, pdpType, apn, t);
    if |text| <= MAX_SMM_MESSAGE_SIZE {
      DefinitionParsed(k, w, text, TakenFrom(k.commands, text, |text|).value.1, env);
    }
  }

  /** After any run of any texts, answers and reports, whatever loads the file gets the last
      definition, the last accepted mode and the last clean credentials. */
  lemma LoadAfterAnyRun(k: P.Config, w: World, steps: seq<P.Step>, m: nat, dc: Dc, junk: string)
    requires Remembers(k, w, steps, m)
    ensures var e := Runs.LastWrite(Trace(k, w, steps)).value;
            var r := Runs.Persistence.Load(dc, P.Run(k, w, steps).file, junk);
            && r.Some?
            && r.value.cid == e.cid && r.value.pdpType == e.pdpType && r.value.apn == e.apn
            && (e.mode.Some? ==> r.value.authMode == e.mode.value)
            && (e.credentials.Some? ==> (r.value.authName, r.value.authPwd) == e.credentials.value)
  {
    RunTraced(k, w, steps);
    Runs.LoadAfterRun(StoreOf(w), Trace(k, w, steps), m, dc, junk);
  }

  lemma QueryParsed(children: seq<Extension>, text: string, w: World, env: Env)
    requires Netconf in children && C.Parse(text, |text|) == Some(C.Command(Name(Cgdcont), C.Query, []))
    requires |text| <= MAX_SMM_MESSAGE_SIZE
    ensures ReceiveCommand(children, text, |text|, w, env) == CgdcontQuery(w, env)
  {
    PersistentTakenFrom(children, text, C.Command(Name(Cgdcont), C.Query, []), Cgdcont);
    ReceiveExecutes(children, text, |text|, w, env);
  }

  lemma QueryReports(w: World, env: Env, e: Runs.Expected)
    requires |w.calls.dcs| > 0
    requires var dc := Runs.Refresh(StoreOf(w), env.io.junk).dc;
             && dc.cid == e.cid && dc.pdpType == e.pdpType && dc.apn == e.apn
             && dc.pdpAddr == Dc0(w).pdpAddr && dc.dComp == Dc0(w).dComp && dc.hComp == Dc0(w).hComp
    ensures CgdcontQuery(w, env).consumed
    ensures CgdcontQuery(w, env).world.host == w.host + [Cut(CgdcontReport(Redefined(Dc0(w), e)))]
  {
    StoreOfWith(w, Runs.Refresh(StoreOf(w), env.io.junk));
  }

  /** And AT+CGDCONT? reports that definition, even over what the modem wrote into context 0. */
  lemma QueryReportsLastDefinition(k: P.Config, w: World, steps: seq<P.Step>, m: nat, t: string, env: Env)
    requires Remembers(k, w, steps, m) && Netconf in k.commands && C.Terminator(t) && |t| == 1
    ensures var before := P.Run(k, w, steps);
            var text := C.Print(Name(Cgdcont), C.Read) + t;
            var r := ReceiveCommand(k.commands, text, |text|, before, env);
            var dc := Redefined(Dc0(before), Runs.LastWrite(Trace(k, w, steps)).value);
            && r.consumed
            && r.world.host == before.host + [Cut(CgdcontReport(dc))]
  {
    var before := P.Run(k, w, steps);
    RunTraced(k, w, steps);
    LoadAfterAnyRun(k, w, steps, m, Dc0(before), env.io.junk);
    CleanNames(Cgdcont);
    C.RoundTrip(Name(Cgdcont), C.Read, t);
    QueryParsed(k.commands, C.Print(Name(Cgdcont), C.Read) + t, before, env);
    QueryReports(before, env, Runs.LastWrite(Trace(k, w, steps)).value);
  }
}
