/** The state of the proxy and the reaction of every command, response and modem answer to
    it. Each handler writes at most once, as its last act; SmmCores shows that re-injecting
    what is written changes nothing. */
module World {
  import opened Text
  import opened Limits
  import opened DcContexts
  import opened DataCalls
  import C = AtCommandParser
  import R = AtResponseParser
  import Runs = ContextRuns

  /** A command waiting for its asynchronous answer. */
  datatype Pending = PendingCgact | PendingScid

  datatype Rat = NoRat | Gsm | Umts | Lte | TdScdma

  datatype Bearer = UnknownBearer | HspaBearer | LteBearer

  datatype RilRequest =
    | SetupDataCall(bearer: Bearer, apn: string, pdpType: string)
    | DeactivateDataCall(cid: nat)

  /** pending is the list of Netconf, its back on the right; host, device and ril are the
      texts sent to either side and the requests sent to the modem interface. */
  datatype World = World(
    pending: seq<Pending>, host: seq<string>, device: seq<string>, ril: seq<RilRequest>,
    calls: Calls, file: Option<string>, rat: Rat)

  /** What a command meets outside: how numbers and addresses are read, the finished text of
      the registration report, whether the modem interface takes a request, and file I/O. */
  datatype Env = Env(
    number: string -> int, validAddress: string -> bool, registration: string, sendOk: bool, io: Runs.Io)

  /** The world afterwards, and whether the message was consumed. */
  datatype Outcome = Outcome(world: World, consumed: bool)

  // ----- Writing

  /** vsnprintf of a finished text into a 128-byte buffer. */
  function Cut(text: string): string {
    if |text| < MSG_BUF_SIZE then text else text[..MSG_BUF_SIZE - 1]
  }

  function Say(w: World, text: string): World {
    w.(host := w.host + [Cut(text)])
  }

  function Tell(w: World, text: string): World {
    w.(device := w.device + [Cut(text)])
  }

  function Reply(w: World, text: string): Outcome {
    Outcome(Say(w, text), true)
  }

  const OK_TEXT := "\r\nOK\r\n"
  const ERROR_TEXT := "\r\nERROR\r\n"
  const FINAL := "\r\n\r\nOK\r\n"

  function OnSuccess(w: World): Outcome {
    Reply(w, OK_TEXT)
  }

  function OnError(w: World): Outcome {
    Reply(w, ERROR_TEXT)
  }

  // ----- The commands of the two extensions

  datatype Command =
    | Atz | NetconfCgmm | Cgdcont | Cgpaddr | Cgcontrdp | Xgauth | Cgact
    | SampleCgmm | Scpin | Ssio | Spio | Scid | Sradc | Smoni | Swwan

  function Name(c: Command): string {
    match c
    case Atz => "ATZ"
    case NetconfCgmm => "AT+CGMM"
    case Cgdcont => "AT+CGDCONT"
    case Cgpaddr => "AT+CGPADDR"
    case Cgcontrdp => "AT+CGCONTRDP"
    case Xgauth => "AT+XGAUTH"
    case Cgact => "AT+CGACT"
    case SampleCgmm => "AT+CGMM"
    case Scpin => "AT^SCPIN"
    case Ssio => "AT^SSIO"
    case Spio => "AT^SPIO"
    case Scid => "AT^SCID"
    case Sradc => "AT^SRADC"
    case Smoni => "AT^SMONI"
    case Swwan => "AT^SWWAN"
  }

  datatype Extension = Netconf | Atsample

  /** The registered commands of an extension, in order. */
  function Commands(e: Extension): seq<Command> {
    match e
    case Netconf => [Atz, NetconfCgmm, Cgdcont, Cgpaddr, Cgcontrdp, Xgauth, Cgact]
    case Atsample => [SampleCgmm, Scpin, Ssio, Spio, Scid, Sradc, Smoni, Swwan]
  }

  /** Context 0, which always exists. */
  function Dc0(w: World): Dc {
    if |w.calls.dcs| > 0 then w.calls.dcs[0] else FRESH
  }

  function StoreOf(w: World): Runs.Store {
    Runs.Store(Dc0(w), w.file)
  }

  /** Context 0 and the file replaced. */
  function WithStore(w: World, st: Runs.Store): World {
    if |w.calls.dcs| > 0 then w.(calls := w.calls.(dcs := w.calls.dcs[0 := st.dc]), file := st.file)
    else w.(file := st.file)
  }

  lemma WithStoreTwice(w: World, first: Runs.Store, second: Runs.Store)
    requires |w.calls.dcs| > 0
    ensures StoreOf(WithStore(w, first)) == first && WithStore(WithStore(w, first), second) == WithStore(w, second)
  {
  }

  function Quoted(s: string): string {
    ['\"'] + s + ['\"']
  }

  function Line(name: string, body: string): string {
    "\r\n" + (name + (body + FINAL))
  }

  // ----- Replies that carry data

  function CgdcontReport(dc: Dc): string {
    Line("+CGDCONT:",
         if dc.cid == -1 then ""
         else [' '] + Join([Dec(dc.cid), Quoted(dc.pdpType), Quoted(dc.apn), Quoted(dc.pdpAddr), Dec(dc.dComp),
                            Dec(dc.hComp)], ','))
  }

  function XgauthReport(dc: Dc): string {
    Line("+XGAUTH:",
         if dc.cid == -1 then ""
         else [' '] + Join([Dec(dc.cid), Dec(dc.authMode), Quoted(dc.authName), Quoted(dc.authPwd)], ','))
  }

  function CgactReport(dc: Dc): string {
    Line("+CGACT:", if dc.cid == -1 then "" else [' '] + Join([Dec(dc.cid), if dc.activated then "1" else "0"], ','))
  }

  /** The cid of an activated context, under either name that asks for it. */
  function CidReport(name: string, dc: Dc): string {
    Line(name, if dc.activated then Dec(dc.cid) else "")
  }

  function CgpaddrReport(dc: Dc): string {
    Line("+CGPADDR: ", Join([Dec(dc.cid), Quoted(dc.pdpAddr)], ','))
  }

  function CgcontrdpReport(dc: Dc): string {
    Line("+CGCONTRDP: ", Join([Dec(dc.cid), "0", Quoted(dc.apn), Quoted(dc.pdpAddr), Quoted(dc.pdpAddr),
                               Quoted(dc.dns1), Quoted(dc.dns2)], ','))
  }

  function SradcReport(channel: int): string {
    Line("^SRADC: ", Join([Dec(channel), "1", "875"], ','))
  }

  // ----- CGDCONT and XGAUTH

  function CgdcontQuery(w: World, env: Env): Outcome {
    var w1 := WithStore(w, Runs.Refresh(StoreOf(w), env.io.junk));
    Reply(w1, CgdcontReport(Dc0(w1)))
  }

  function CgdcontWrite(args: seq<string>, w: World, env: Env): Outcome {
    if |args| < 3 then OnError(w)
    else if args[1] !in IP_TYPES then OnError(w)
    else if |args| >= 4 && !env.validAddress(args[3]) then OnError(w)
    else
      var r := Runs.Define(StoreOf(w), env.number(args[0]), args[1], args[2], env.io);
      var w1 := WithStore(w, r.store);
      if r.ok then OnSuccess(w1) else OnError(w1)
  }

  function XgauthQuery(w: World, env: Env): Outcome {
    var w1 := WithStore(w, Runs.Refresh(StoreOf(w), env.io.junk));
    Reply(w1, XgauthReport(Dc0(w1)))
  }

  function XgauthWrite(args: seq<string>, w: World, env: Env): Outcome {
    if |args| < 4 then OnError(w)
    else if |args[2]| > Runs.AUTH_NAME_PWD_LEN || |args[3]| > Runs.AUTH_NAME_PWD_LEN then OnError(w)
    else
      var r := Runs.Authenticate(StoreOf(w), env.number(args[0]), env.number(args[1]), args[2], args[3], env.io);
      var w1 := WithStore(w, r.store);
      if r.ok then OnSuccess(w1) else OnError(w1)
  }

  // ----- CGACT, asynchronous

  function BearerOf(rat: Rat): Bearer {
    match rat
    case NoRat => UnknownBearer
    case Gsm => HspaBearer
    case Lte => LteBearer
    case _ => UnknownBearer
  }

  /** The request that setupDataCall or releaseDataCall sends, if it sends one. */
  function RequestFor(activate: bool, w: World): Option<RilRequest> {
    if activate then
      if Dc0(w).pdpType in IP_TYPES then Some(SetupDataCall(BearerOf(w.rat), Dc0(w).apn, Dc0(w).pdpType)) else None
    else Some(DeactivateDataCall(Dc0(w).cid % 256))
  }

  /** Only the state argument counts; the cid argument is ignored. */
  function CgactWrite(args: seq<string>, w: World, env: Env): Outcome {
    if |args| < 2 then OnError(w)
    else
      var activate := env.number(args[0]) == 1;
      if w.rat == NoRat then OnError(w)
      else if Dc0(w).activated == activate then OnSuccess(w)
      else if RequestFor(activate, w).Some? && env.sendOk then
        Outcome(w.(ril := w.ril + [RequestFor(activate, w).value], pending := w.pending + [PendingCgact]), true)
      else OnError(w)
  }

  // ----- The other commands

  function CgpaddrWrite(args: seq<string>, w: World, env: Env): Outcome {
    if |args| < 1 then Reply(w, CidReport("+CGPADDR: ", Dc0(w)))
    else if Dc0(w).activated && env.number(args[0]) == Dc0(w).cid then Reply(w, CgpaddrReport(Dc0(w)))
    else OnError(w)
  }

  function CgcontrdpWrite(args: seq<string>, w: World, env: Env): Outcome {
    if |args| < 1 then OnError(w)
    else if Dc0(w).activated && env.number(args[0]) == Dc0(w).cid then Reply(w, CgcontrdpReport(Dc0(w)))
    else OnError(w)
  }

  function ScidQuery(w: World): Outcome {
    Outcome(Tell(w.(pending := w.pending + [PendingScid]), "AT+CCID\r\n"), true)
  }

  function SradcWrite(args: seq<string>, w: World, env: Env): Outcome {
    if |args| < 1 then OnError(w) else Reply(w, SradcReport(env.number(args[0])))
  }

  function SwwanText(state: int, cid: int): string {
    "AT+CGACT=" + (Join([Dec(state), Dec(cid)], ',') + "\r\n")
  }

  function SwwanWrite(args: seq<string>, w: World, env: Env): Outcome {
    if |args| < 2 then OnError(w)
    else Outcome(Tell(w, SwwanText(env.number(args[0]), env.number(args[1]))), true)
  }

  // ----- AtCommand::execute

  function ExecuteAsTest(c: Command, w: World): Outcome {
    match c
    case Atz => OnSuccess(w)
    case NetconfCgmm => OnSuccess(w)
    case SampleCgmm => OnSuccess(w)
    case Scid => OnSuccess(w)
    case Smoni => OnSuccess(w)
    case Cgpaddr => Reply(w, CidReport("+CGPADDR: ", Dc0(w)))
    case Cgcontrdp => Reply(w, CidReport("+CGCONTRDP: ", Dc0(w)))
    case Cgdcont => Outcome(w, false)
    case Xgauth => Outcome(w, false)
    case Cgact => Outcome(w, false)
    case Swwan => Outcome(Tell(w, "AT+CGACT=?"), true)
    case _ => OnError(w)
  }

  function ExecuteAsQuery(c: Command, w: World, env: Env): Outcome {
    match c
    case Atz => OnSuccess(w)
    case NetconfCgmm => Reply(w, Line("XMM7272 with Smart Modem Manager", ""))
    case SampleCgmm => Reply(w, Line("XMM7272 with Smart Modem Manager (Atsample)", ""))
    case Cgdcont => CgdcontQuery(w, env)
    case Xgauth => XgauthQuery(w, env)
    case Cgact => Reply(w, CgactReport(Dc0(w)))
    case Cgcontrdp => Reply(w, CidReport("+CGCONTRDP: ", Dc0(w)))
    case Scid => ScidQuery(w)
    case Smoni => Reply(w, Line("^SMONI: ", env.registration))
    case Swwan => Outcome(Tell(w, "AT+CGACT?"), true)
    case _ => OnError(w)
  }

  function ExecuteAsWrite(c: Command, args: seq<string>, w: World, env: Env): Outcome {
    match c
    case Atz => OnSuccess(w)
    case Cgdcont => CgdcontWrite(args, w, env)
    case Xgauth => XgauthWrite(args, w, env)
    case Cgact => CgactWrite(args, w, env)
    case Cgpaddr => CgpaddrWrite(args, w, env)
    case Cgcontrdp => CgcontrdpWrite(args, w, env)
    case Scpin => if |args| < 3 then OnError(w) else OnSuccess(w)
    case Ssio => if |args| < 2 then OnError(w) else OnSuccess(w)
    case Spio => if |args| < 1 then OnError(w) else OnSuccess(w)
    case Sradc => SradcWrite(args, w, env)
    case Swwan => SwwanWrite(args, w, env)
    case _ => OnError(w)
  }

  function Execute(c: Command, parsed: C.Command, w: World, env: Env): Outcome {
    match parsed.kind
    case Test => ExecuteAsTest(c, w)
    case Write => ExecuteAsWrite(c, parsed.args, w, env)
    case Query => ExecuteAsQuery(c, w, env)
    case Undefined => OnError(w)
  }

  // ----- Dispatch

  /** The first registered command with that name, in any case. */
  function FindCommand(commands: seq<Command>, name: string): Option<Command> {
    if |commands| == 0 then None
    else if EqualsIgnoreCase(name, Name(commands[0])) then Some(commands[0])
    else FindCommand(commands[1..], name)
  }

  function CommandChild(e: Extension, parsed: C.Command, w: World, env: Env): Outcome {
    var c := FindCommand(Commands(e), parsed.name);
    if c.Some? then Execute(c.value, parsed, w, env) else Outcome(w, false)
  }

  /** The first child that consumes ends the loop. */
  function CommandChildren(children: seq<Extension>, parsed: C.Command, w: World, env: Env): Outcome {
    if |children| == 0 then Outcome(w, false)
    else
      var r := CommandChild(children[0], parsed, w, env);
      if r.consumed then r else CommandChildren(children[1..], parsed, r.world, env)
  }

  /** The command root on the text of a command of length len. */
  function ProcessCommand(children: seq<Extension>, text: string, len: nat, w: World, env: Env): Outcome {
    var parsed := C.Parse(text, len);
    if parsed.Some? then CommandChildren(children, parsed.value, w, env) else Outcome(w, false)
  }

  /** smmcore_cmd_process: longer input is refused. */
  function ReceiveCommand(children: seq<Extension>, text: string, len: nat, w: World, env: Env): Outcome {
    if len > MAX_SMM_MESSAGE_SIZE then Outcome(w, false) else ProcessCommand(children, text, len, w, env)
  }

  // ----- Answers to a pending command

  function Dequeue(w: World): World {
    if |w.pending| > 0 then w.(pending := DropLast(w.pending)) else w
  }

  function ScidText(ccid: string): string {
    "^SCID: " + (ccid + OK_TEXT)
  }

  /** onError of whatever command is on top of the stack. */
  function FailTop(w: World): Outcome {
    if |w.pending| > 0 then OnError(Dequeue(w)) else Outcome(w, false)
  }

  /** onSuccess with a message that is not +CCID: SCID drops out without a result. */
  function SucceedTop(w: World): Outcome {
    if |w.pending| == 0 then Outcome(w, false)
    else if Last(w.pending) == PendingCgact then OnSuccess(Dequeue(w))
    else Outcome(Dequeue(w), false)
  }

  /** onSuccess with a +CCID message. */
  function SucceedTopWith(ccid: string, w: World): Outcome {
    if |w.pending| == 0 then Outcome(w, false)
    else if Last(w.pending) == PendingCgact then OnSuccess(Dequeue(w))
    else Reply(Dequeue(w), ScidText(ccid))
  }

  // ----- Responses

  datatype Message = CmeErrorMessage | ErrorMessage | OkMessage | CcidMessage

  function MessageName(m: Message): string {
    match m
    case CmeErrorMessage => "+CME ERROR"
    case ErrorMessage => "ERROR"
    case OkMessage => "OK"
    case CcidMessage => "+CCID"
  }

  function Messages(e: Extension): seq<Message> {
    match e
    case Netconf => [CmeErrorMessage, ErrorMessage, OkMessage]
    case Atsample => [CmeErrorMessage, ErrorMessage, OkMessage, CcidMessage]
  }

  function FindMessage(messages: seq<Message>, name: Option<string>): Option<Message> {
    if |messages| == 0 || name == None then None
    else if EqualsIgnoreCase(name.value, MessageName(messages[0])) then Some(messages[0])
    else FindMessage(messages[1..], name)
  }

  /** A +CCID reply needs a final result in the same chunk; without one it is unsolicited. */
  function CcidReply(parsed: R.Response, w: World): Outcome {
    if parsed.kind == R.OkKind || parsed.kind == R.ErrorKind then
      if |parsed.args| < 1 then Outcome(w, false) else SucceedTopWith(parsed.args[0], w)
    else Outcome(w, false)
  }

  function ExecuteMessage(m: Message, parsed: R.Response, w: World): Outcome {
    match m
    case CmeErrorMessage => FailTop(w)
    case ErrorMessage => FailTop(w)
    case OkMessage => SucceedTop(w)
    case CcidMessage => CcidReply(parsed, w)
  }

  function ResponseChild(e: Extension, parsed: R.Response, w: World): Outcome {
    var m := FindMessage(Messages(e), parsed.name);
    if m.Some? then ExecuteMessage(m.value, parsed, w) else Outcome(w, false)
  }

  function ResponseChildren(children: seq<Extension>, parsed: R.Response, w: World): Outcome {
    if |children| == 0 then Outcome(w, false)
    else
      var r := ResponseChild(children[0], parsed, w);
      if r.consumed then r else ResponseChildren(children[1..], parsed, r.world)
  }

  /** The response root on the text of a response. */
  function ProcessResponse(children: seq<Extension>, text: string, w: World): Outcome {
    ResponseChildren(children, R.Parse(text), w)
  }

  /** smmcore_rsp_process: longer input is refused. */
  function ReceiveResponse(children: seq<Extension>, text: string, len: nat, w: World): Outcome {
    if len > MAX_SMM_MESSAGE_SIZE then Outcome(w, false) else ProcessResponse(children, text, w)
  }

  // ----- Answers of the modem interface

  /** onSuccess(nullptr) dereferences its message for SCID: a success needs CGACT on top. */
  predicate AnswerOk(w: World, success: bool) {
    success && |w.pending| > 0 ==> Last(w.pending) == PendingCgact
  }

  function AnswerTop(w: World, success: bool): World {
    if success then SucceedTop(w).world else FailTop(w).world
  }

  function OnDataCallSetup(w: World, success: bool, call: DataCall): World {
    AnswerTop(if success then w.(calls := Update(w.calls, call)) else w, success)
  }

  function OnDataCallReleased(w: World, success: bool): World {
    AnswerTop(w, success)
  }

  function OnDataCallListChanged(w: World, calls: seq<DataCall>): World {
    w.(calls := UpdateAll(w.calls, calls))
  }

  /** onRadioModeSet: once the radio is on, context 0 is loaded for the initial attach. */
  function OnRadioModeSet(w: World, success: bool, junk: string): World {
    if success then WithStore(w, Runs.Refresh(StoreOf(w), junk)) else w
  }
}
