/** What one host command, one modem response and one modem answer do to the proxy, for any
    list of extensions and any stack of pending commands. */
module Protocol {
  import opened Text
  import opened DcContexts
  import opened DataCalls
  import opened World
  import C = AtCommandParser
  import R = AtResponseParser
  import Runs = ContextRuns

  // ----- Commands

  /** Only context 0 may differ, and not in its activation. */
  predicate SameActivation(c: Calls, after: Calls) {
    && after.events == c.events && |after.dcs| == |c.dcs|
    && (|c.dcs| > 0 ==> after.dcs == c.dcs[0 := after.dcs[0]] && after.dcs[0].activated == c.dcs[0].activated)
  }

  /** One result to the host, nothing to the other sides, nothing enqueued. */
  predicate HostReply(w: World, after: World) {
    && |after.host| == |w.host| + 1 && w.host <= after.host
    && after.device == w.device && after.ril == w.ril && after.pending == w.pending
    && SameActivation(w.calls, after.calls) && after.rat == w.rat
  }

  /** One request and one pending entry, and nothing to the host. */
  predicate AsyncRequest(w: World, after: World) {
    && |after.pending| == |w.pending| + 1 && w.pending <= after.pending
    && if Last(after.pending) == PendingCgact then
         |after.ril| == |w.ril| + 1 && after == w.(pending := after.pending, ril := after.ril) && w.ril <= after.ril
       else after == w.(pending := after.pending, device := w.device + [Cut("AT+CCID\r\n")])
  }

  /** One text to the device and nothing else. */
  predicate PlainForward(w: World, after: World) {
    |after.device| == |w.device| + 1 && w.device <= after.device && after == w.(device := after.device)
  }

  predicate Reacts(w: World, r: Outcome) {
    if r.consumed then HostReply(w, r.world) || AsyncRequest(w, r.world) || PlainForward(w, r.world)
    else r.world == w
  }

  lemma ReplyReacts(w0: World, w: World, text: string)
    requires w.host == w0.host && w.device == w0.device && w.ril == w0.ril && w.pending == w0.pending
    requires SameActivation(w0.calls, w.calls) && w.rat == w0.rat
    ensures Reacts(w0, Reply(w, text)) && HostReply(w0, Reply(w, text).world)
  {
  }

  lemma TestReacts(c: Command, w: World)
    ensures Reacts(w, ExecuteAsTest(c, w))
  {
    ReplyReacts(w, w, OK_TEXT);
    ReplyReacts(w, w, ERROR_TEXT);
  }

  lemma StoreReacts(w: World, st: Runs.Store, ok: bool)
    requires st.dc.activated == Dc0(w).activated
    ensures var w1 := WithStore(w, st);
            Reacts(w, if ok then OnSuccess(w1) else OnError(w1))
  {
    var w1 := WithStore(w, st);
    ReplyReacts(w, w1, OK_TEXT);
    ReplyReacts(w, w1, ERROR_TEXT);
  }

  lemma CgdcontQueryReacts(w: World, env: Env)
    ensures Reacts(w, CgdcontQuery(w, env)) && Reacts(w, XgauthQuery(w, env))
  {
    var w1 := WithStore(w, Runs.Refresh(StoreOf(w), env.io.junk));
    assert SameActivation(w.calls, w1.calls);
  }

  lemma QueryReacts(c: Command, w: World, env: Env)
    ensures Reacts(w, ExecuteAsQuery(c, w, env))
  {
    match c
    case Cgdcont => CgdcontQueryReacts(w, env);
    case Xgauth => CgdcontQueryReacts(w, env);
    case _ =>
  }

  lemma CgactReacts(args: seq<string>, w: World, env: Env)
    ensures Reacts(w, CgactWrite(args, w, env))
  {
    ReplyReacts(w, w, OK_TEXT);
    ReplyReacts(w, w, ERROR_TEXT);
  }

  lemma CgdcontReacts(args: seq<string>, w: World, env: Env)
    ensures Reacts(w, CgdcontWrite(args, w, env))
  {
    if |args| >= 3 {
      var r := Runs.Define(StoreOf(w), env.number(args[0]), args[1], args[2], env.io);
      StoreReacts(w, r.store, r.ok);
    }
  }

  lemma XgauthReacts(args: seq<string>, w: World, env: Env)
    ensures Reacts(w, XgauthWrite(args, w, env))
  {
    if |args| >= 4 {
      var r := Runs.Authenticate(StoreOf(w), env.number(args[0]), env.number(args[1]), args[2], args[3], env.io);
      StoreReacts(w, r.store, r.ok);
    }
  }

  lemma WriteReacts(c: Command, args: seq<string>, w: World, env: Env)
    ensures Reacts(w, ExecuteAsWrite(c, args, w, env))
  {
    match c
    case Cgdcont => CgdcontReacts(args, w, env);
    case Xgauth => XgauthReacts(args, w, env);
    case Cgact => CgactReacts(args, w, env);
    case _ =>
  }

  lemma ExecuteReacts(c: Command, parsed: C.Command, w: World, env: Env)
    ensures Reacts(w, Execute(c, parsed, w, env))
  {
    match parsed.kind
    case Test => TestReacts(c, w);
    case Query => QueryReacts(c, w, env);
    case Write => WriteReacts(c, parsed.args, w, env);
    case Undefined => ReplyReacts(w, w, ERROR_TEXT);
  }

  lemma {:induction false} ChildrenReact(children: seq<Extension>, parsed: C.Command, w: World, env: Env)
    ensures Reacts(w, CommandChildren(children, parsed, w, env))
  {
    if |children| > 0 {
      var c := FindCommand(Commands(children[0]), parsed.name);
      if c.Some? {
        ExecuteReacts(c.value, parsed, w, env);
      }
      ChildrenReact(children[1..], parsed, w, env);
    }
  }

  /** For any command: not consumed means nothing happened; consumed means one host result,
      or one request with one pending entry, or one plain device text. */
  lemma CommandReacts(children: seq<Extension>, text: string, len: nat, w: World, env: Env)
    ensures var r := ReceiveCommand(children, text, len, w, env);
            && (!r.consumed ==> r.world == w)
            && (r.consumed ==> HostReply(w, r.world) || AsyncRequest(w, r.world) || PlainForward(w, r.world))
  {
    var parsed := C.Parse(text, len);
    if parsed.Some? {
      ChildrenReact(children, parsed.value, w, env);
    }
  }

  // ----- Responses

  /** Nothing but the stack and the host log changes, and the stack only loses entries. */
  predicate Answers(w: World, after: World, atMost: nat) {
    && after.pending <= w.pending && |w.pending| - |after.pending| <= atMost
    && w.host <= after.host
    && after == w.(pending := after.pending, host := after.host)
  }

  lemma ResponseChildAnswers(e: Extension, parsed: R.Response, w: World)
    ensures var r := ResponseChild(e, parsed, w);
            Answers(w, r.world, 1) && |r.world.host| == |w.host| + (if r.consumed then 1 else 0)
  {
  }

  lemma {:induction false} ResponseChildrenAnswer(children: seq<Extension>, parsed: R.Response, w: World)
    ensures var r := ResponseChildren(children, parsed, w);
            Answers(w, r.world, |children|) && |r.world.host| == |w.host| + (if r.consumed then 1 else 0)
  {
    if |children| > 0 {
      ResponseChildAnswers(children[0], parsed, w);
      ResponseChildrenAnswer(children[1..], parsed, ResponseChild(children[0], parsed, w).world);
    }
  }

  /** For any response and any children: consumed exactly when one result was written, not
      consumed exactly when none was; the stack loses at most one entry a child. */
  lemma ResponseAnswers(children: seq<Extension>, text: string, len: nat, w: World)
    ensures var r := ReceiveResponse(children, text, len, w);
            && Answers(w, r.world, |children|)
            && (r.consumed <==> |r.world.host| == |w.host| + 1)
            && (!r.consumed <==> r.world.host == w.host)
  {
    ResponseChildrenAnswer(children, R.Parse(text), w);
  }

  // ----- The ledger of CGACT

  function CountCgact(pending: seq<Pending>): nat {
    if |pending| == 0 then 0
    else CountCgact(DropLast(pending)) + (if Last(pending) == PendingCgact then 1 else 0)
  }

  predicate Result(text: string) {
    text == OK_TEXT || text == ERROR_TEXT
  }

  /** A step that dequeues: it removes one CGACT and writes its one result, or none. */
  predicate Settles(w: World, after: World) {
    && after.ril == w.ril
    && (CountCgact(after.pending) == CountCgact(w.pending)
        || (CountCgact(after.pending) == CountCgact(w.pending) - 1
            && |after.host| == |w.host| + 1 && w.host <= after.host && Result(Last(after.host))))
  }

  lemma TopSettles(w: World, ccid: string)
    ensures Settles(w, FailTop(w).world) && Settles(w, SucceedTop(w).world) && Settles(w, SucceedTopWith(ccid, w).world)
  {
  }

  lemma ResponseChildSettles(e: Extension, parsed: R.Response, w: World)
    ensures Settles(w, ResponseChild(e, parsed, w).world)
    ensures !ResponseChild(e, parsed, w).consumed ==>
              CountCgact(ResponseChild(e, parsed, w).world.pending) == CountCgact(w.pending)
  {
    TopSettles(w, if |parsed.args| > 0 then parsed.args[0] else "");
  }

  lemma {:induction false} ResponseSettles(children: seq<Extension>, parsed: R.Response, w: World)
    ensures Settles(w, ResponseChildren(children, parsed, w).world)
  {
    if |children| > 0 {
      ResponseChildSettles(children[0], parsed, w);
      ResponseChildAnswers(children[0], parsed, w);
      ResponseSettles(children[1..], parsed, ResponseChild(children[0], parsed, w).world);
    }
  }

  // ----- Runs

  datatype Step =
    | HostCommand(text: string, len: nat, env: Env)
    | ModemResponse(text: string, len: nat)
    | SetupAnswer(success: bool, call: DataCall)
    | ReleaseAnswer(success: bool)
    | CallList(calls: seq<DataCall>)
    | Registration(rat: Rat)
    | RadioMode(success: bool, junk: string)

  /** The extensions, in the order they were added to each root. */
  datatype Config = Config(commands: seq<Extension>, responses: seq<Extension>)

  function Apply(k: Config, w: World, s: Step): World {
    match s
    case HostCommand(text, len, env) => ReceiveCommand(k.commands, text, len, w, env).world
    case ModemResponse(text, len) => ReceiveResponse(k.responses, text, len, w).world
    case SetupAnswer(success, call) => OnDataCallSetup(w, success, call)
    case ReleaseAnswer(success) => OnDataCallReleased(w, success)
    case CallList(calls) => OnDataCallListChanged(w, calls)
    case Registration(rat) => w.(rat := rat)
    case RadioMode(success, junk) => OnRadioModeSet(w, success, junk)
  }

  predicate Legal(w: World, s: Step) {
    match s
    case SetupAnswer(success, _) => AnswerOk(w, success)
    case ReleaseAnswer(success) => AnswerOk(w, success)
    case _ => true
  }

  function Run(k: Config, w: World, steps: seq<Step>): World {
    if |steps| == 0 then w else Apply(k, Run(k, w, DropLast(steps)), Last(steps))
  }

  ghost predicate LegalRun(k: Config, w: World, steps: seq<Step>) {
    |steps| == 0 || (LegalRun(k, w, DropLast(steps)) && Legal(Run(k, w, DropLast(steps)), Last(steps)))
  }

  const INITIAL := World([], [], [], [], Calls([FRESH], []), None, NoRat)

  /** What the steps of a run that removed a CGACT entry wrote to the host. */
  function Settled(k: Config, w: World, steps: seq<Step>): seq<string> {
    if |steps| == 0 then []
    else
      var before := Run(k, w, DropLast(steps));
      var after := Apply(k, before, Last(steps));
      Settled(k, w, DropLast(steps))
      + if CountCgact(after.pending) < CountCgact(before.pending) && |after.host| >= |before.host| then
          after.host[|before.host|..]
        else []
  }

  lemma CommandLedger(w: World, r: Outcome)
    requires Reacts(w, r)
    ensures |r.world.ril| - |w.ril| == CountCgact(r.world.pending) - CountCgact(w.pending) >= 0
  {
    if r.consumed && AsyncRequest(w, r.world) {
      assert DropLast(r.world.pending) == w.pending;
    }
  }

  /** A step sends a request exactly when it adds a CGACT entry; any other step removes at
      most one, with exactly one OK or ERROR to the host. */
  lemma StepLedger(k: Config, w: World, s: Step)
    ensures var after := Apply(k, w, s);
            if s.HostCommand? then
              |after.ril| - |w.ril| == CountCgact(after.pending) - CountCgact(w.pending) >= 0
            else Settles(w, after)
  {
    match s
    case HostCommand(text, len, env) =>
      CommandReacts(k.commands, text, len, w, env);
      CommandLedger(w, ReceiveCommand(k.commands, text, len, w, env));
    case ModemResponse(text, len) =>
      ResponseSettles(k.responses, R.Parse(text), w);
    case SetupAnswer(success, call) =>
      TopSettles(if success then w.(calls := Update(w.calls, call)) else w, "");
    case ReleaseAnswer(success) =>
      TopSettles(w, "");
    case _ =>
  }

  /** Over any run, every request sent to the modem interface is either still pending or has
      been settled by exactly one text to the host, an OK or an ERROR. */
  lemma {:induction false} RunLedger(k: Config, w: World, steps: seq<Step>)
    requires LegalRun(k, w, steps)
    ensures |Run(k, w, steps).ril| + CountCgact(w.pending)
         == |w.ril| + CountCgact(Run(k, w, steps).pending) + |Settled(k, w, steps)|
    ensures forall text <- Settled(k, w, steps) :: Result(text)
  {
    if |steps| > 0 {
      var before := Run(k, w, DropLast(steps));
      RunLedger(k, w, DropLast(steps));
      StepLedger(k, before, Last(steps));
      var after := Apply(k, before, Last(steps));
      if CountCgact(after.pending) < CountCgact(before.pending) {
        assert after.host[|before.host|..] == [Last(after.host)];
      }
    }
  }

  // ----- Tethering over every run

  lemma StepKeepsTethered(k: Config, w: World, s: Step)
    requires Tethered(w.calls)
    ensures Tethered(Apply(k, w, s).calls)
  {
    match s
    case HostCommand(text, len, env) =>
      CommandReacts(k.commands, text, len, w, env);
      var after := Apply(k, w, s);
      if |w.calls.dcs| > 0 && after.calls != w.calls {
        FieldsKeepTethered(w.calls, 0, after.calls.dcs[0]);
      }
    case ModemResponse(text, len) =>
      ResponseAnswers(k.responses, text, len, w);
    case SetupAnswer(success, call) =>
      UpdateKeepsTethered(w.calls, call);
    case CallList(calls) =>
      UpdateAllKeepsTethered(w.calls, calls);
    case RadioMode(success, junk) =>
      if success && |w.calls.dcs| > 0 {
        FieldsKeepTethered(w.calls, 0, Runs.Refresh(StoreOf(w), junk).dc);
      }
    case _ =>
  }

  /** Over every run, commands included: for each context object the tethering events alternate,
      established first, and in total established minus terminated is the number of activated
      contexts. */
  lemma {:induction false} RunKeepsTethered(k: Config, steps: seq<Step>)
    ensures Tethered(Run(k, INITIAL, steps).calls)
  {
    if |steps| == 0 {
      assert |INITIAL.calls.events| == 0 && |DropLast(INITIAL.calls.dcs)| == 0;
    } else {
      RunKeepsTethered(k, DropLast(steps));
      StepKeepsTethered(k, Run(k, INITIAL, DropLast(steps)), Last(steps));
    }
  }
}
