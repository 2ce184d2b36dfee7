/** What the host reads: a finished reply ends with OK or ERROR, but the writer cuts every
    text to 127 characters, and a cut reply does not. */
module Replies {
  import opened Text
  import opened Limits
  import opened DcContexts
  import opened DataCalls
  import opened World
  import opened Dispatch
  import P = Protocol
  import S = Sessions
  import C = AtCommandParser
  import Runs = ContextRuns
  import Persistence

  predicate EndsWith(text: string, end: string) {
    |end| <= |text| && text[|text| - |end|..] == end
  }

  /** The text carries a final result. */
  predicate Final(text: string) {
    EndsWith(text, OK_TEXT) || EndsWith(text, ERROR_TEXT)
  }

  // ----- Cutting

  /** The text has a final result, and keeps it exactly when it is short enough not to be cut. */
  predicate EndsExactly(text: string) {
    Final(text) && (Final(Cut(text)) <==> |text| < MSG_BUF_SIZE)
  }

  /** A cut text that ends with a result has a carriage return in two places. */
  lemma FinalAt(cut: string)
    requires |cut| == MSG_BUF_SIZE - 1 && Final(cut)
    ensures cut[125] == '\r' && (cut[121] == '\r' || cut[118] == '\r')
  {
    if EndsWith(cut, OK_TEXT) {
      assert cut[121] == cut[121..][0] && cut[125] == cut[121..][4];
    } else {
      assert cut[118] == cut[118..][0] && cut[125] == cut[118..][7];
    }
  }

  /** A long text with an OK at its end and no carriage return before, but one of an empty line,
      loses its OK when it is cut. */
  lemma CutIsNotFinal(text: string)
    requires |text| >= MSG_BUF_SIZE && text[|text| - 6..] == OK_TEXT
    requires forall i :: 8 <= i < |text| - 6 && i != |text| - 8 ==> text[i] != '\r'
    ensures !Final(Cut(text))
  {
    var n := |text|;
    assert forall i :: n - 6 <= i < n ==> text[i] == OK_TEXT[i - (n - 6)];
    if Final(Cut(text)) {
      FinalAt(Cut(text));
    }
  }

  /** A text of one line and an OK, perhaps after an empty line. */
  lemma CutLine(front: string, line: string, end: string)
    requires |front| <= 8 && '\r' !in line && (end == OK_TEXT || end == FINAL)
    ensures EndsExactly(front + line + end)
  {
    var text := front + line + end;
    var n := |text|;
    assert text[n - 6..] == end[|end| - 6..] == OK_TEXT;
    if n >= MSG_BUF_SIZE {
      forall i | 8 <= i < n - 6 && i != n - 8 ensures text[i] != '\r' {
        if i < n - |end| {
          assert text[i] == line[i - |front|];
        } else {
          assert i == n - 7 && text[i] == end[1];
        }
      }
      CutIsNotFinal(text);
    }
  }

  lemma LineEndsExactly(name: string, body: string)
    requires '\r' !in name && '\r' !in body
    ensures EndsExactly(Line(name, body))
  {
    assert Line(name, body) == "\r\n" + (name + body) + FINAL;
    CutLine("\r\n", name + body, FINAL);
  }

  /** The condition is needed: a field that itself spells a result where the text is cut. */
  lemma EmbeddedResult(before: string)
    requires |before| == 111
    ensures var text := Line("^SMONI: ", before + OK_TEXT);
            |text| >= MSG_BUF_SIZE && Final(Cut(text))
  {
    var kept := "\r\n" + ("^SMONI: " + (before + OK_TEXT));
    assert Line("^SMONI: ", before + OK_TEXT) == kept + FINAL;
    assert |kept| == 127 && (kept + FINAL)[..|kept|] == kept;
    assert kept[121..] == OK_TEXT;
  }

  lemma LineIsFinal(name: string, body: string)
    ensures Final(Line(name, body))
  {
    var front := "\r\n" + (name + (body + ['\r', '\n']));
    assert Line(name, body) == front + OK_TEXT;
  }

  lemma ScidEndsExactly(ccid: string)
    requires '\r' !in ccid
    ensures Final(ScidText(ccid)) && |ScidText(ccid)| == |ccid| + 13
    ensures Final(Cut(ScidText(ccid))) <==> |ccid| <= 114
  {
    assert ScidText(ccid) == "^SCID: " + ccid + OK_TEXT;
    CutLine("^SCID: ", ccid, OK_TEXT);
  }

  lemma ResultsAreFinal()
    ensures Final(OK_TEXT) && Final(ERROR_TEXT) && Cut(OK_TEXT) == OK_TEXT && Cut(ERROR_TEXT) == ERROR_TEXT
  {
  }

  // ----- The finished reply of a command

  /** The finished text of a command that replies with data; None for one that replies with a
      result alone, or later. */
  function Report(c: Command, parsed: C.Command, w: World, env: Env): Option<string> {
    match parsed.kind
    case Test => TestReport(c, Dc0(w))
    case Query => QueryReport(c, w, env)
    case Write => WriteReport(c, parsed.args, Dc0(w), env)
    case Undefined => None
  }

  function TestReport(c: Command, dc: Dc): Option<string> {
    match c
    case Cgpaddr => Some(CidReport("+CGPADDR: ", dc))
    case Cgcontrdp => Some(CidReport("+CGCONTRDP: ", dc))
    case _ => None
  }

  function QueryReport(c: Command, w: World, env: Env): Option<string> {
    match c
    case NetconfCgmm => Some(Line("XMM7272 with Smart Modem Manager", ""))
    case SampleCgmm => Some(Line("XMM7272 with Smart Modem Manager (Atsample)", ""))
    case Cgdcont => Some(CgdcontReport(Runs.Refresh(StoreOf(w), env.io.junk).dc))
    case Xgauth => Some(XgauthReport(Runs.Refresh(StoreOf(w), env.io.junk).dc))
    case Cgact => Some(CgactReport(Dc0(w)))
    case Cgcontrdp => Some(CidReport("+CGCONTRDP: ", Dc0(w)))
    case Smoni => Some(Line("^SMONI: ", env.registration))
    case _ => None
  }

  function WriteReport(c: Command, args: seq<string>, dc: Dc, env: Env): Option<string> {
    match c
    case Cgpaddr =>
      if |args| < 1 then Some(CidReport("+CGPADDR: ", dc))
      else if dc.activated && env.number(args[0]) == dc.cid then Some(CgpaddrReport(dc))
      else None
    case Cgcontrdp =>
      if |args| >= 1 && dc.activated && env.number(args[0]) == dc.cid then Some(CgcontrdpReport(dc)) else None
    case Sradc => if |args| >= 1 then Some(SradcReport(env.number(args[0]))) else None
    case _ => None
  }

  /** What a reaction w to r added to the host log is this report, cut, or a bare result. */
  predicate Delivers(w: World, r: Outcome, report: Option<string>) {
    r.consumed && P.HostReply(w, r.world) ==>
      match report
      case Some(text) => r.world.host == w.host + [Cut(text)]
      case None => r.world.host == w.host + [OK_TEXT] || r.world.host == w.host + [ERROR_TEXT]
  }

  lemma TestDelivers(c: Command, w: World)
    ensures Delivers(w, ExecuteAsTest(c, w), TestReport(c, Dc0(w)))
  {
    ResultsAreFinal();
  }

  lemma RefreshDelivers(w: World, env: Env)
    requires |w.calls.dcs| > 0
    ensures Dc0(WithStore(w, Runs.Refresh(StoreOf(w), env.io.junk))) == Runs.Refresh(StoreOf(w), env.io.junk).dc
  {
  }

  lemma QueryDelivers(c: Command, w: World, env: Env)
    requires |w.calls.dcs| > 0
    ensures Delivers(w, ExecuteAsQuery(c, w, env), QueryReport(c, w, env))
  {
    ResultsAreFinal();
    RefreshDelivers(w, env);
  }

  lemma StoreDelivers(args: seq<string>, w: World, env: Env)
    ensures Delivers(w, CgdcontWrite(args, w, env), None) && Delivers(w, XgauthWrite(args, w, env), None)
  {
    ResultsAreFinal();
  }

  lemma CgactDelivers(args: seq<string>, w: World, env: Env)
    ensures Delivers(w, CgactWrite(args, w, env), None)
  {
    ResultsAreFinal();
  }

  lemma WriteDelivers(c: Command, args: seq<string>, w: World, env: Env)
    ensures Delivers(w, ExecuteAsWrite(c, args, w, env), WriteReport(c, args, Dc0(w), env))
  {
    ResultsAreFinal();
    match c
    case Cgdcont => StoreDelivers(args, w, env);
    case Xgauth => StoreDelivers(args, w, env);
    case Cgact => CgactDelivers(args, w, env);
    case _ =>
  }

  /** A command that replies at once delivers its report cut to 127 characters, or a bare result. */
  lemma ReplyDelivers(c: Command, parsed: C.Command, w: World, env: Env)
    requires |w.calls.dcs| > 0
    ensures Delivers(w, Execute(c, parsed, w, env), Report(c, parsed, w, env))
  {
    ResultsAreFinal();
    match parsed.kind
    case Test => TestDelivers(c, w);
    case Query => QueryDelivers(c, w, env);
    case Write => WriteDelivers(c, parsed.args, w, env);
    case Undefined =>
  }

  lemma CgdcontReportIsFinal(dc: Dc)
    ensures Final(CgdcontReport(dc))
  {
    LinesAreFinal();
  }

  lemma XgauthReportIsFinal(dc: Dc)
    ensures Final(XgauthReport(dc))
  {
    LinesAreFinal();
  }

  lemma CallReportsAreFinal(name: string, dc: Dc)
    ensures Final(CgactReport(dc)) && Final(CidReport(name, dc))
  {
    LinesAreFinal();
  }

  lemma AddressReportsAreFinal(dc: Dc, channel: int)
    ensures Final(CgpaddrReport(dc)) && Final(CgcontrdpReport(dc)) && Final(SradcReport(channel))
  {
    LinesAreFinal();
  }

  lemma LinesAreFinal()
    ensures forall name, body :: Final(Line(name, body))
  {
    forall name, body ensures Final(Line(name, body)) {
      LineIsFinal(name, body);
    }
  }

  lemma QueryReportIsFinal(c: Command, w: World, env: Env)
    ensures QueryReport(c, w, env).Some? ==> Final(QueryReport(c, w, env).value)
  {
    match c
    case NetconfCgmm => LineIsFinal("XMM7272 with Smart Modem Manager", "");
    case SampleCgmm => LineIsFinal("XMM7272 with Smart Modem Manager (Atsample)", "");
    case Smoni => LineIsFinal("^SMONI: ", env.registration);
    case _ =>
      CallReportsAreFinal("+CGCONTRDP: ", Dc0(w));
      CgdcontReportIsFinal(Runs.Refresh(StoreOf(w), env.io.junk).dc);
      XgauthReportIsFinal(Runs.Refresh(StoreOf(w), env.io.junk).dc);
  }

  lemma WriteReportIsFinal(c: Command, args: seq<string>, dc: Dc, env: Env)
    ensures WriteReport(c, args, dc, env).Some? ==> Final(WriteReport(c, args, dc, env).value)
  {
    CallReportsAreFinal("+CGPADDR: ", dc);
    AddressReportsAreFinal(dc, if |args| > 0 then env.number(args[0]) else 0);
  }

  /** Every report is finished, whatever its fields hold. */
  lemma ReportIsFinal(c: Command, parsed: C.Command, w: World, env: Env)
    ensures var report := Report(c, parsed, w, env);
            report.Some? ==> Final(report.value)
  {
    match parsed.kind
    case Test =>
      CallReportsAreFinal("+CGPADDR: ", Dc0(w));
      CallReportsAreFinal("+CGCONTRDP: ", Dc0(w));
    case Query => QueryReportIsFinal(c, w, env);
    case Write => WriteReportIsFinal(c, parsed.args, Dc0(w), env);
    case Undefined =>
  }

  /** In every state and for every text: the report of a command that replies at once ends with a
      result, and reaches the host whole, result included, exactly when it is shorter than 128. */
  lemma ReplyIsWholeExactly(k: P.Config, w: World, text: string, len: nat, env: Env)
    requires |w.calls.dcs| > 0
    ensures var r := ReceiveCommand(k.commands, text, len, w, env);
            var report := ReportTo(k, w, text, len, env);
            r.consumed && P.HostReply(w, r.world) ==>
              match report
              case Some(whole) => Final(whole) && (Last(r.world.host) == whole <==> |whole| < MSG_BUF_SIZE)
              case None => Final(Last(r.world.host))
  {
    ResultsAreFinal();
    ReceiveExecutes(k.commands, text, len, w, env);
    var taken := TakenFrom(k.commands, text, len);
    if taken.Some? {
      ReplyDelivers(taken.value.0, taken.value.1, w, env);
      ReportIsFinal(taken.value.0, taken.value.1, w, env);
    }
  }

  // ----- Fields stay on one line

  /** No field of a context that a reply prints has a line end. */
  predicate OneLine(dc: Dc) {
    && '\r' !in dc.apn && '\r' !in dc.pdpType && '\r' !in dc.pdpAddr && '\r' !in dc.dns1 && '\r' !in dc.dns2
    && '\r' !in dc.authName && '\r' !in dc.authPwd
  }

  lemma JoinOneLine(fields: seq<string>)
    requires fields != [] && forall f <- fields :: '\r' !in f
    ensures '\r' !in Join(fields, ',')
  {
    JoinMembers(fields, ',', {'\r'});
  }

  lemma CgdcontEnds(dc: Dc)
    requires OneLine(dc)
    ensures EndsExactly(CgdcontReport(dc))
  {
    var fields := [Dec(dc.cid), Quoted(dc.pdpType), Quoted(dc.apn), Quoted(dc.pdpAddr), Dec(dc.dComp), Dec(dc.hComp)];
    JoinOneLine(fields);
    LineEndsExactly("+CGDCONT:", if dc.cid == -1 then "" else [' '] + Join(fields, ','));
  }

  lemma XgauthEnds(dc: Dc)
    requires OneLine(dc)
    ensures EndsExactly(XgauthReport(dc))
  {
    var fields := [Dec(dc.cid), Dec(dc.authMode), Quoted(dc.authName), Quoted(dc.authPwd)];
    JoinOneLine(fields);
    LineEndsExactly("+XGAUTH:", if dc.cid == -1 then "" else [' '] + Join(fields, ','));
  }

  lemma CgactEnds(dc: Dc)
    ensures EndsExactly(CgactReport(dc))
  {
    var fields := [Dec(dc.cid), if dc.activated then "1" else "0"];
    JoinOneLine(fields);
    LineEndsExactly("+CGACT:", if dc.cid == -1 then "" else [' '] + Join(fields, ','));
  }

  lemma CgpaddrEnds(dc: Dc)
    requires OneLine(dc)
    ensures EndsExactly(CgpaddrReport(dc))
  {
    var fields := [Dec(dc.cid), Quoted(dc.pdpAddr)];
    JoinOneLine(fields);
    LineEndsExactly("+CGPADDR: ", Join(fields, ','));
  }

  lemma CgcontrdpEnds(dc: Dc)
    requires OneLine(dc)
    ensures EndsExactly(CgcontrdpReport(dc))
  {
    var fields := [Dec(dc.cid), "0", Quoted(dc.apn), Quoted(dc.pdpAddr), Quoted(dc.pdpAddr), Quoted(dc.dns1),
                   Quoted(dc.dns2)];
    JoinOneLine(fields);
    LineEndsExactly("+CGCONTRDP: ", Join(fields, ','));
  }

  lemma CidEnds(name: string, dc: Dc)
    requires '\r' !in name
    ensures EndsExactly(CidReport(name, dc))
  {
    LineEndsExactly(name, if dc.activated then Dec(dc.cid) else "");
  }

  lemma SradcEnds(channel: int)
    ensures EndsExactly(SradcReport(channel))
  {
    var fields := [Dec(channel), "1", "875"];
    JoinOneLine(fields);
    LineEndsExactly("^SRADC: ", Join(fields, ','));
  }

  /** A loaded field has no white space. */
  lemma RefreshOneLine(st: Runs.Store, junk: string)
    requires OneLine(st.dc)
    ensures OneLine(Runs.Refresh(st, junk).dc)
  {
    if st.file.Some? && |st.file.value| > 0 {
      Persistence.ScanFields(Persistence.Buffer(st.file.value, junk));
    }
  }

  lemma TestReportEnds(c: Command, dc: Dc)
    ensures TestReport(c, dc).Some? ==> EndsExactly(TestReport(c, dc).value)
  {
    CidEnds("+CGPADDR: ", dc);
    CidEnds("+CGCONTRDP: ", dc);
  }

  lemma LoadedReportEnds(w: World, env: Env)
    requires OneLine(Dc0(w))
    ensures EndsExactly(CgdcontReport(Runs.Refresh(StoreOf(w), env.io.junk).dc))
    ensures EndsExactly(XgauthReport(Runs.Refresh(StoreOf(w), env.io.junk).dc))
  {
    var loaded := Runs.Refresh(StoreOf(w), env.io.junk).dc;
    RefreshOneLine(StoreOf(w), env.io.junk);
    CgdcontEnds(loaded);
    XgauthEnds(loaded);
  }

  lemma ModelEnds()
    ensures EndsExactly(Line("XMM7272 with Smart Modem Manager", ""))
    ensures EndsExactly(Line("XMM7272 with Smart Modem Manager (Atsample)", ""))
  {
    LineEndsExactly("XMM7272 with Smart Modem Manager", "");
    LineEndsExactly("XMM7272 with Smart Modem Manager (Atsample)", "");
  }

  lemma QueryReportEnds(c: Command, w: World, env: Env)
    requires OneLine(Dc0(w)) && '\r' !in env.registration
    ensures QueryReport(c, w, env).Some? ==> EndsExactly(QueryReport(c, w, env).value)
  {
    match c
    case NetconfCgmm => ModelEnds();
    case SampleCgmm => ModelEnds();
    case Cgdcont => LoadedReportEnds(w, env);
    case Xgauth => LoadedReportEnds(w, env);
    case Cgact => CgactEnds(Dc0(w));
    case Cgcontrdp => CidEnds("+CGCONTRDP: ", Dc0(w));
    case Smoni => LineEndsExactly("^SMONI: ", env.registration);
    case _ =>
  }

  lemma AddressReportEnds(args: seq<string>, dc: Dc, env: Env)
    requires OneLine(dc)
    ensures WriteReport(Cgpaddr, args, dc, env).Some? ==> EndsExactly(WriteReport(Cgpaddr, args, dc, env).value)
  {
    if |args| < 1 {
      CidEnds("+CGPADDR: ", dc);
    } else {
      CgpaddrEnds(dc);
    }
  }

  lemma WriteReportEnds(c: Command, args: seq<string>, dc: Dc, env: Env)
    requires OneLine(dc)
    ensures WriteReport(c, args, dc, env).Some? ==> EndsExactly(WriteReport(c, args, dc, env).value)
  {
    match c
    case Cgpaddr => AddressReportEnds(args, dc, env);
    case Cgcontrdp => CgcontrdpEnds(dc);
    case Sradc =>
      if |args| >= 1 {
        SradcEnds(env.number(args[0]));
      }
    case _ =>
  }

  lemma ReportEnds(c: Command, parsed: C.Command, w: World, env: Env)
    requires OneLine(Dc0(w)) && '\r' !in env.registration
    ensures var report := Report(c, parsed, w, env);
            report.Some? ==> EndsExactly(report.value)
  {
    match parsed.kind
    case Test => TestReportEnds(c, Dc0(w));
    case Query => QueryReportEnds(c, w, env);
    case Write => WriteReportEnds(c, parsed.args, Dc0(w), env);
    case Undefined =>
  }

  // ----- Over every run

  /** The texts a report brings in. */
  predicate OneLineCall(call: DataCall) {
    '\r' !in call.interfaceName && '\r' !in call.address
  }

  predicate OneLineStep(s: P.Step) {
    match s
    case SetupAnswer(_, call) => OneLineCall(call)
    case CallList(calls) => forall i :: 0 <= i < |calls| ==> OneLineCall(calls[i])
    case _ => true
  }

  predicate OneLineTrace(s: Runs.Step) {
    match s
    case DefineStep(_, pdpType, apn, _) => '\r' !in pdpType && '\r' !in apn
    case AuthenticateStep(_, _, name, pwd, _) => '\r' !in name && '\r' !in pwd
    case QueryStep(_) => true
    case ReportStep(call) => OneLineCall(call)
  }

  lemma {:induction false} TraceKeepsOneLine(st: Runs.Store, steps: seq<Runs.Step>)
    requires OneLine(st.dc) && forall s <- steps :: OneLineTrace(s)
    ensures OneLine(Runs.Run(st, steps).dc)
  {
    if |steps| > 0 {
      assert Last(steps) in steps && forall s <- DropLast(steps) :: s in steps;
      TraceKeepsOneLine(st, DropLast(steps));
      TraceStepKeepsOneLine(Runs.Run(st, DropLast(steps)), Last(steps));
    }
  }

  lemma TraceStepKeepsOneLine(st: Runs.Store, s: Runs.Step)
    requires OneLine(st.dc) && OneLineTrace(s)
    ensures OneLine(Runs.Apply(st, s).store.dc)
  {
    match s
    case DefineStep(_, _, _, io) => RefreshOneLine(st, io.junk);
    case AuthenticateStep(_, _, _, _, io) => RefreshOneLine(st, io.junk);
    case QueryStep(junk) => RefreshOneLine(st, junk);
    case ReportStep(_) =>
  }

  lemma {:induction false} ListTraceOneLine(c: Calls, calls: seq<DataCall>)
    requires forall i :: 0 <= i < |calls| ==> OneLineCall(calls[i])
    ensures forall s <- S.ListTrace(c, calls) :: OneLineTrace(s)
  {
    if |calls| > 0 {
      ListTraceOneLine(c, DropLast(calls));
    }
  }

  lemma CommandTraceOneLine(c: Command, parsed: C.Command, env: Env)
    requires forall arg <- parsed.args :: Undeleted(arg)
    ensures forall t <- S.CommandTrace(c, parsed, env) :: OneLineTrace(t)
  {
    forall i | 0 <= i < |parsed.args| ensures '\r' !in parsed.args[i] {
      assert parsed.args[i] in parsed.args && Deleted('\r');
    }
  }

  /** The tokeniser lets no line end into an argument. */
  lemma StepTraceOneLine(k: P.Config, w: World, s: P.Step)
    requires OneLineStep(s)
    ensures forall t <- S.StepTrace(k, w, s) :: OneLineTrace(t)
  {
    match s
    case HostCommand(text, len, env) =>
      var taken := TakenFrom(k.commands, text, len);
      if taken.Some? {
        C.ArgsUndeleted(text, len);
        CommandTraceOneLine(taken.value.0, taken.value.1, env);
      }
    case CallList(calls) => ListTraceOneLine(w.calls, calls);
    case _ =>
  }

  lemma {:induction false} RunKeepsOneLine(k: P.Config, w: World, steps: seq<P.Step>)
    requires |w.calls.dcs| > 0 && OneLine(Dc0(w)) && forall s <- steps :: OneLineStep(s)
    ensures |P.Run(k, w, steps).calls.dcs| > 0 && OneLine(Dc0(P.Run(k, w, steps)))
  {
    S.RunTraced(k, w, steps);
    if |steps| > 0 {
      assert Last(steps) in steps && forall s <- DropLast(steps) :: s in steps;
      var before := P.Run(k, w, DropLast(steps));
      RunKeepsOneLine(k, w, DropLast(steps));
      S.StepTraced(k, before, Last(steps));
      StepTraceOneLine(k, before, Last(steps));
      TraceKeepsOneLine(StoreOf(before), S.StepTrace(k, before, Last(steps)));
    }
  }

  function ReportTo(k: P.Config, w: World, text: string, len: nat, env: Env): Option<string> {
    match TakenFrom(k.commands, text, len)
    case Some((c, parsed)) => Report(c, parsed, w, env)
    case None => None
  }

  /** After any run from any file, whenever a command is answered at once: the added text is its
      finished report, cut, or a bare result, and it ends with OK or ERROR exactly when the
      finished reply is shorter than 128 characters. */
  lemma ReplyEndsExactly(k: P.Config, w: World, steps: seq<P.Step>, text: string, len: nat, env: Env)
    requires |w.calls.dcs| > 0 && OneLine(Dc0(w)) && forall s <- steps :: OneLineStep(s)
    requires '\r' !in env.registration
    ensures var before := P.Run(k, w, steps);
            var r := ReceiveCommand(k.commands, text, len, before, env);
            var report := ReportTo(k, before, text, len, env);
            r.consumed && P.HostReply(before, r.world) ==>
              && Delivers(before, r, report)
              && (report.Some? ==> Final(report.value))
              && (Final(Last(r.world.host)) <==> (report.Some? ==> |report.value| < MSG_BUF_SIZE))
  {
    var before := P.Run(k, w, steps);
    RunKeepsOneLine(k, w, steps);
    ResultsAreFinal();
    ReceiveExecutes(k.commands, text, len, before, env);
    var taken := TakenFrom(k.commands, text, len);
    if taken.Some? {
      ReplyDelivers(taken.value.0, taken.value.1, before, env);
      ReportEnds(taken.value.0, taken.value.1, before, env);
    }
  }

  /** The reply to AT+XGAUTH? up to the password. */
  function BeforePassword(dc: Dc): string {
    var name := Quoted(dc.authName) + [',', '\"'];
    "\r\n+XGAUTH:" + ([' '] + (Dec(dc.cid) + ([','] + (Dec(dc.authMode) + ([','] + name)))))
  }

  lemma XgauthReportIs(dc: Dc)
    requires dc.cid != -1
    ensures XgauthReport(dc) == BeforePassword(dc) + (dc.authPwd + (['\"'] + FINAL))
  {
    var cid, mode, name, pwd := Dec(dc.cid), Dec(dc.authMode), Quoted(dc.authName), Quoted(dc.authPwd);
    JoinFour(cid, mode, name, pwd);
    assert XgauthReport(dc) == Line("+XGAUTH:", [' '] + (cid + ([','] + (mode + ([','] + (name + ([','] + pwd)))))));
  }

  lemma JoinFour(a: string, b: string, c: string, d: string)
    ensures Join([a, b, c, d], ',') == a + ([','] + (b + ([','] + (c + ([','] + d)))))
  {
    assert DropLast([a, b]) == [a] && DropLast([a, b, c]) == [a, b] && DropLast([a, b, c, d]) == [a, b, c];
    assert Join([a, b], ',') == a + [','] + b;
    assert Join([a, b, c], ',') == a + [','] + b + [','] + c;
    assert Join([a, b, c, d], ',') == a + [','] + b + [','] + c + [','] + d;
  }

  /** The longest credentials: the reply to AT+XGAUTH? ends inside the password, without a result. */
  lemma CredentialsAreCut(dc: Dc)
    requires OneLine(dc) && dc.cid != -1 && |dc.authName| == |dc.authPwd| == Runs.AUTH_NAME_PWD_LEN
    requires Runs.IsInt32(dc.cid) && Runs.IsInt32(dc.authMode)
    ensures var text, front := Cut(XgauthReport(dc)), BeforePassword(dc);
            && 0 < 127 - |front| < |dc.authPwd| && text == front + dc.authPwd[..127 - |front|]
            && !Final(text)
  {
    var front, rest := BeforePassword(dc), ['\"'] + FINAL;
    XgauthReportIs(dc);
    Runs.DecLength(dc.cid);
    Runs.DecLength(dc.authMode);
    XgauthEnds(dc);
    assert |front| == 81 + |Dec(dc.cid)| + |Dec(dc.authMode)|;
    CutInside(front, dc.authPwd, rest);
  }

  lemma CutInside(front: string, middle: string, rest: string)
    requires |front| < 127 < |front| + |middle|
    ensures Cut(front + (middle + rest)) == front + middle[..127 - |front|]
  {
    var n := 127 - |front|;
    var kept := front + middle[..n];
    assert front + (middle + rest) == kept + (middle[n..] + rest);
    assert |kept| == 127 && (kept + (middle[n..] + rest))[..|kept|] == kept;
  }

  /** So AT+XGAUTH? with such credentials in the record is answered without an OK. */
  lemma CredentialsQueryIsCut(w: World, env: Env)
    requires |w.calls.dcs| > 0
    requires var dc := Runs.Refresh(StoreOf(w), env.io.junk).dc;
             && OneLine(dc) && dc.cid != -1 && |dc.authName| == |dc.authPwd| == Runs.AUTH_NAME_PWD_LEN
             && Runs.IsInt32(dc.cid) && Runs.IsInt32(dc.authMode)
    ensures var r := XgauthQuery(w, env);
            && r.consumed && P.HostReply(w, r.world)
            && |Last(r.world.host)| == 127 && !Final(Last(r.world.host))
  {
    RefreshDelivers(w, env);
    CredentialsAreCut(Runs.Refresh(StoreOf(w), env.io.junk).dc);
    P.CgdcontQueryReacts(w, env);
  }
}
