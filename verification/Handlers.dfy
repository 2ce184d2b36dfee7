/** What every command does, from the text that is typed to the text that is read
    (extensions/netconf/src/NetconfAtCommandParser.cpp,
    extensions/atsample/src/AtsampleAtCommandParser.cpp). */
module Handlers {
  import opened Text
  import opened DcContexts
  import opened World
  import opened Dispatch
  import Protocol
  import C = AtCommandParser
  import Runs = ContextRuns
  import Persistence

  // ----- Names

  lemma NetconfFound(name: string)
    ensures FindCommand(Commands(Netconf), name) ==
            if EqualsIgnoreCase(name, "ATZ") then Some(Atz)
            else if EqualsIgnoreCase(name, "AT+CGMM") then Some(NetconfCgmm)
            else if EqualsIgnoreCase(name, "AT+CGDCONT") then Some(Cgdcont)
            else if EqualsIgnoreCase(name, "AT+CGPADDR") then Some(Cgpaddr)
            else if EqualsIgnoreCase(name, "AT+CGCONTRDP") then Some(Cgcontrdp)
            else if EqualsIgnoreCase(name, "AT+XGAUTH") then Some(Xgauth)
            else if EqualsIgnoreCase(name, "AT+CGACT") then Some(Cgact)
            else None
  {
    var all := Commands(Netconf);
    FindAt(all, name, 0);
    FindAt(all, name, 1);
    FindAt(all, name, 2);
    FindAt(all, name, 3);
    FindAt(all, name, 4);
    FindAt(all, name, 5);
    FindAt(all, name, 6);
    assert all[0..] == all && |all[7..]| == 0;
  }

  lemma AtsampleFound(name: string)
    ensures FindCommand(Commands(Atsample), name) ==
            if EqualsIgnoreCase(name, "AT+CGMM") then Some(SampleCgmm)
            else if EqualsIgnoreCase(name, "AT^SCPIN") then Some(Scpin)
            else if EqualsIgnoreCase(name, "AT^SSIO") then Some(Ssio)
            else if EqualsIgnoreCase(name, "AT^SPIO") then Some(Spio)
            else if EqualsIgnoreCase(name, "AT^SCID") then Some(Scid)
            else if EqualsIgnoreCase(name, "AT^SRADC") then Some(Sradc)
            else if EqualsIgnoreCase(name, "AT^SMONI") then Some(Smoni)
            else if EqualsIgnoreCase(name, "AT^SWWAN") then Some(Swwan)
            else None
  {
    var all := Commands(Atsample);
    FindAt(all, name, 0);
    FindAt(all, name, 1);
    FindAt(all, name, 2);
    FindAt(all, name, 3);
    FindAt(all, name, 4);
    FindAt(all, name, 5);
    FindAt(all, name, 6);
    FindAt(all, name, 7);
    assert all[0..] == all && |all[8..]| == 0;
  }

  lemma FindAt(commands: seq<Command>, name: string, i: nat)
    requires i < |commands|
    ensures FindCommand(commands[i..], name) ==
            if EqualsIgnoreCase(name, Name(commands[i])) then Some(commands[i])
            else FindCommand(commands[i + 1..], name)
  {
    assert commands[i..][0] == commands[i] && commands[i..][1..] == commands[i + 1..];
  }

  function Other(e: Extension): Extension {
    if e == Netconf then Atsample else Netconf
  }

  /** The name reaches this command of this extension, and none of the other. */
  predicate Only(e: Extension, c: Command, name: string) {
    FindCommand(Commands(e), name) == Some(c) && FindCommand(Commands(Other(e)), name) == None
  }

  /** No two names but AT+CGMM agree: they differ in length or in the third or fifth letter. */
  lemma NetconfNamed(name: string)
    ensures EqualsIgnoreCase(name, "ATZ") ==> Only(Netconf, Atz, name)
    ensures EqualsIgnoreCase(name, "AT+CGDCONT") ==> Only(Netconf, Cgdcont, name)
    ensures EqualsIgnoreCase(name, "AT+CGPADDR") ==> Only(Netconf, Cgpaddr, name)
    ensures EqualsIgnoreCase(name, "AT+CGCONTRDP") ==> Only(Netconf, Cgcontrdp, name)
    ensures EqualsIgnoreCase(name, "AT+XGAUTH") ==> Only(Netconf, Xgauth, name)
    ensures EqualsIgnoreCase(name, "AT+CGACT") ==> Only(Netconf, Cgact, name)
  {
    NetconfFound(name);
    AtsampleFound(name);
    if |name| > 5 {
      assert Lower(name[2]) == Lower(name[2]) && Lower(name[5]) == Lower(name[5]);
      assert Lower('^') == '^' && Lower('+') == '+' && Lower('D') == 'd' && Lower('P') == 'p';
    }
  }

  lemma AtsampleNamed(name: string)
    ensures EqualsIgnoreCase(name, "AT^SCPIN") ==> Only(Atsample, Scpin, name)
    ensures EqualsIgnoreCase(name, "AT^SSIO") ==> Only(Atsample, Ssio, name)
    ensures EqualsIgnoreCase(name, "AT^SPIO") ==> Only(Atsample, Spio, name)
    ensures EqualsIgnoreCase(name, "AT^SCID") ==> Only(Atsample, Scid, name)
    ensures EqualsIgnoreCase(name, "AT^SRADC") ==> Only(Atsample, Sradc, name)
    ensures EqualsIgnoreCase(name, "AT^SMONI") ==> Only(Atsample, Smoni, name)
    ensures EqualsIgnoreCase(name, "AT^SWWAN") ==> Only(Atsample, Swwan, name)
  {
    NetconfFound(name);
    AtsampleFound(name);
    if |name| > 4 {
      assert Lower(name[2]) == Lower(name[2]) && Lower(name[4]) == Lower(name[4]);
      assert Lower('^') == '^' && Lower('+') == '+' && Lower('S') == 's' && Lower('P') == 'p';
      assert Lower('C') == 'c' && Lower('R') == 'r' && Lower('M') == 'm' && Lower('W') == 'w';
    }
  }

  lemma {:induction false} TakenOnly(children: seq<Extension>, parsed: C.Command, e: Extension, c: Command)
    requires Only(e, c, parsed.name)
    ensures Taken(children, parsed) == if e in children && !Declines(c, parsed.kind) then Some(c) else None
  {
    if |children| > 0 {
      TakenOnly(children[1..], parsed, e, c);
      assert e in children <==> children[0] == e || e in children[1..];
    }
  }

  // ----- Typed lines

  /** A line that is looked at and parses to this name, in any case, and this kind. */
  predicate Typed(text: string, len: nat, name: string, kind: C.Kind) {
    len <= 256 && C.Parse(text, len).Some? && EqualsIgnoreCase(C.Parse(text, len).value.name, name)
    && C.Parse(text, len).value.kind == kind
  }

  /** The host reads this, and nothing else happens. */
  function Answer(w: World, text: string): Outcome {
    Outcome(w.(host := w.host + [text]), true)
  }

  const OK := "\r\nOK\r\n"
  const ERROR := "\r\nERROR\r\n"

  lemma Received(children: seq<Extension>, text: string, len: nat, w: World, env: Env, e: Extension, c: Command)
    requires len <= 256 && C.Parse(text, len).Some? && Only(e, c, C.Parse(text, len).value.name) && e in children
    ensures ReceiveCommand(children, text, len, w, env) == Execute(c, C.Parse(text, len).value, w, env)
  {
    var parsed := C.Parse(text, len).value;
    TakenOnly(children, parsed, e, c);
    ReceiveExecutes(children, text, len, w, env);
    ConsumedUnlessDeclined(c, parsed, w, env);
  }

  /** The commands by their names, AT+CGMM aside. */
  predicate Spells(e: Extension, c: Command, name: string) {
    match c
    case Atz => e == Netconf && name == "ATZ"
    case Cgdcont => e == Netconf && name == "AT+CGDCONT"
    case Cgpaddr => e == Netconf && name == "AT+CGPADDR"
    case Cgcontrdp => e == Netconf && name == "AT+CGCONTRDP"
    case Xgauth => e == Netconf && name == "AT+XGAUTH"
    case Cgact => e == Netconf && name == "AT+CGACT"
    case Scpin => e == Atsample && name == "AT^SCPIN"
    case Ssio => e == Atsample && name == "AT^SSIO"
    case Spio => e == Atsample && name == "AT^SPIO"
    case Scid => e == Atsample && name == "AT^SCID"
    case Sradc => e == Atsample && name == "AT^SRADC"
    case Smoni => e == Atsample && name == "AT^SMONI"
    case Swwan => e == Atsample && name == "AT^SWWAN"
    case _ => false
  }

  lemma SpelledOnly(e: Extension, c: Command, name: string, typed: string)
    requires Spells(e, c, name) && EqualsIgnoreCase(typed, name)
    ensures Only(e, c, typed)
  {
    NetconfNamed(typed);
    AtsampleNamed(typed);
  }

  /** A typed name is executed by its command. */
  lemma Executed(children: seq<Extension>, text: string, len: nat, name: string, kind: C.Kind, w: World, env: Env,
                 e: Extension, c: Command)
    requires e in children && Spells(e, c, name) && Typed(text, len, name, kind)
    ensures C.Parse(text, len).value.kind == kind
    ensures ReceiveCommand(children, text, len, w, env) == Execute(c, C.Parse(text, len).value, w, env)
  {
    SpelledOnly(e, c, name, C.Parse(text, len).value.name);
    Received(children, text, len, w, env, e, c);
  }

  function Args(text: string, len: nat): seq<string>
    requires C.Parse(text, len).Some?
  {
    C.Parse(text, len).value.args
  }

  /** Over 256 characters, or at most 2, a line is left alone. */
  lemma OtherLengthsAreLeft(children: seq<Extension>, text: string, len: nat, w: World, env: Env)
    requires len > 256 || len <= 2
    ensures ReceiveCommand(children, text, len, w, env) == Outcome(w, false)
  {
  }

  /** A rejected question mark answers ERROR, if the name is known. */
  lemma UndefinedAnswers(c: Command, parsed: C.Command, w: World, env: Env)
    requires parsed.kind == C.Undefined
    ensures Execute(c, parsed, w, env) == Answer(w, ERROR)
  {
  }

  /** Any other name is left alone. */
  lemma OtherNamesAreLeft(children: seq<Extension>, text: string, len: nat, w: World, env: Env)
    requires C.Parse(text, len).Some?
    requires FindCommand(Commands(Netconf), C.Parse(text, len).value.name) == None
    requires FindCommand(Commands(Atsample), C.Parse(text, len).value.name) == None
    ensures ReceiveCommand(children, text, len, w, env) == Outcome(w, false)
  {
    NoneTaken(children, C.Parse(text, len).value);
    ReceiveExecutes(children, text, len, w, env);
  }

  lemma {:induction false} NoneTaken(children: seq<Extension>, parsed: C.Command)
    requires FindCommand(Commands(Netconf), parsed.name) == None
    requires FindCommand(Commands(Atsample), parsed.name) == None
    ensures Taken(children, parsed) == None
  {
    if |children| > 0 {
      NoneTaken(children[1..], parsed);
    }
  }

  // ----- AT+CGACT=

  predicate Asked(args: seq<string>, env: Env) {
    |args| >= 2 && env.number(args[0]) == 1
  }

  predicate KnownType(pdpType: string) {
    pdpType == "IP" || pdpType == "IPV4V6" || pdpType == "IPV6"
  }

  /** Registered, and context 0 is in the asked state already. */
  predicate CgactIsDone(args: seq<string>, w: World, env: Env) {
    |args| >= 2 && w.rat != NoRat && (Asked(args, env) <==> Dc0(w).activated)
  }

  /** Registered, the state differs, the type is known for an activation, and the interface accepts. */
  predicate CgactSends(args: seq<string>, w: World, env: Env) {
    && |args| >= 2 && w.rat != NoRat && (Asked(args, env) <==> !Dc0(w).activated) && env.sendOk
    && (Asked(args, env) ==> KnownType(Dc0(w).pdpType))
  }

  /** The bearer of a request, by the access technology. */
  predicate Bears(rat: Rat, bearer: Bearer) {
    && (rat == Gsm <==> bearer == HspaBearer)
    && (rat == Lte <==> bearer == LteBearer)
    && (rat != Gsm && rat != Lte ==> bearer == UnknownBearer)
  }

  /** The content of the request: APN and type of context 0 and the bearer, or the low byte of its cid. */
  predicate Requests(activate: bool, w: World, request: RilRequest) {
    if activate then
      && request.SetupDataCall? && request.apn == Dc0(w).apn && request.pdpType == Dc0(w).pdpType
      && Bears(w.rat, request.bearer)
    else request == DeactivateDataCall(Dc0(w).cid % 256)
  }

  /** OK at once exactly when it is done already, a request exactly when it sends one, else ERROR. */
  predicate CgactOutcome(args: seq<string>, w: World, env: Env, r: Outcome) {
    && (r == Answer(w, OK) <==> CgactIsDone(args, w, env))
    && (r.world.pending != w.pending <==> CgactSends(args, w, env))
    && (!CgactIsDone(args, w, env) && !CgactSends(args, w, env) ==> r == Answer(w, ERROR))
    && (CgactSends(args, w, env) ==>
          && r.consumed && |r.world.ril| == |w.ril| + 1
          && r.world == w.(pending := w.pending + [PendingCgact], ril := w.ril + [Last(r.world.ril)])
          && Requests(Asked(args, env), w, Last(r.world.ril)))
  }

  lemma CgactWrites(args: seq<string>, w: World, env: Env)
    ensures CgactOutcome(args, w, env, CgactWrite(args, w, env))
  {
    assert |w.pending + [PendingCgact]| != |w.pending|;
    assert Last(Say(w, ERROR).host) == ERROR && Last(Say(w, OK).host) == OK;
  }

  lemma CgactAnswers(children: seq<Extension>, text: string, len: nat, w: World, env: Env)
    requires Netconf in children && Typed(text, len, "AT+CGACT", C.Write)
    ensures CgactOutcome(Args(text, len), w, env, ReceiveCommand(children, text, len, w, env))
  {
    Executed(children, text, len, "AT+CGACT", C.Write, w, env, Netconf, Cgact);
    CgactWrites(Args(text, len), w, env);
  }

  /** The line "AT+CGACT=1,1", or any state and cid, quoted or not, with any line end. */
  lemma CgactTyped(children: seq<Extension>, state: C.Arg, cid: C.Arg, t: string, w: World, env: Env)
    requires Netconf in children && C.Terminator(t) && C.CleanForm(C.Assignment([state, cid])) && cid.text != ""
    ensures var text := C.Print("AT+CGACT", C.Assignment([state, cid])) + t;
            |text| <= 256 ==>
              CgactOutcome([state.text, cid.text], w, env, ReceiveCommand(children, text, |text|, w, env))
  {
    var text := C.Print("AT+CGACT", C.Assignment([state, cid])) + t;
    assert C.CleanName("AT+CGACT");
    C.RoundTrip("AT+CGACT", C.Assignment([state, cid]), t);
    assert C.ExpectedArgs(C.Assignment([state, cid])) == [state.text, cid.text];
    if |text| <= 256 {
      CgactAnswers(children, text, |text|, w, env);
    }
  }

  // ----- AT+CGDCONT=

  /** Three arguments, a known type, and a valid address if there is one. */
  predicate CgdcontAccepts(args: seq<string>, env: Env) {
    |args| >= 3 && KnownType(args[1]) && (|args| >= 4 ==> env.validAddress(args[3]))
  }

  /** Context 0 and the file after a store, and the one result the host reads. */
  predicate Stores(w: World, dc: Dc, io: Runs.Io, r: Outcome)
    requires |w.calls.dcs| > 0
  {
    && r.consumed && r.world.calls == w.calls.(dcs := w.calls.dcs[0 := dc])
    && r.world.host == w.host + [if io.storeOk then OK else ERROR]
    && r.world == w.(calls := r.world.calls, host := r.world.host, file := r.world.file)
    && r.world.file == if io.storeOk then
                         Some(Persistence.Overwrite(w.file, Persistence.Written(Persistence.Record(dc), io.memory)))
                       else w.file
  }

  /** An accepted definition is answered with OK exactly when the store succeeds, else with ERROR;
      a refused one with ERROR, and then nothing is touched. */
  lemma CgdcontAnswers(children: seq<Extension>, text: string, len: nat, w: World, env: Env)
    requires Netconf in children && Typed(text, len, "AT+CGDCONT", C.Write) && |w.calls.dcs| > 0
    ensures var args, r := Args(text, len), ReceiveCommand(children, text, len, w, env);
            var loaded := Runs.Refresh(StoreOf(w), env.io.junk).dc;
            if CgdcontAccepts(args, env) then
              Stores(w, loaded.(cid := env.number(args[0]), pdpType := args[1], apn := args[2]), env.io, r)
            else r == Answer(w, ERROR)
  {
    Executed(children, text, len, "AT+CGDCONT", C.Write, w, env, Netconf, Cgdcont);
    CgdcontWrites(Args(text, len), w, env);
  }

  lemma CgdcontWrites(args: seq<string>, w: World, env: Env)
    requires |w.calls.dcs| > 0
    ensures var loaded := Runs.Refresh(StoreOf(w), env.io.junk).dc;
            if CgdcontAccepts(args, env) then
              Stores(w, loaded.(cid := env.number(args[0]), pdpType := args[1], apn := args[2]), env.io,
                     CgdcontWrite(args, w, env))
            else CgdcontWrite(args, w, env) == Answer(w, ERROR)
  {
  }

  // ----- AT+XGAUTH=

  predicate XgauthAccepts(args: seq<string>) {
    |args| >= 4 && |args[2]| <= 64 && |args[3]| <= 64
  }

  /** OK exactly when the store succeeds and the cid is the one context 0 has after the load, and
      defined; mode, name and password are set only then, in that order. */
  predicate XgauthOutcome(args: seq<string>, w: World, env: Env, r: Outcome)
    requires |w.calls.dcs| > 0
  {
    var loaded := Runs.Refresh(StoreOf(w), env.io.junk).dc;
    if !XgauthAccepts(args) then r == Answer(w, ERROR)
    else if loaded.cid == -1 || loaded.cid != env.number(args[0]) then
      r == Answer(w.(calls := w.calls.(dcs := w.calls.dcs[0 := loaded])), ERROR)
    else Stores(w, loaded.(authMode := env.number(args[1]), authName := args[2], authPwd := args[3]), env.io, r)
  }

  lemma XgauthWrites(args: seq<string>, w: World, env: Env)
    requires |w.calls.dcs| > 0
    ensures XgauthOutcome(args, w, env, XgauthWrite(args, w, env))
  {
  }

  lemma XgauthAnswers(children: seq<Extension>, text: string, len: nat, w: World, env: Env)
    requires Netconf in children && Typed(text, len, "AT+XGAUTH", C.Write) && |w.calls.dcs| > 0
    ensures XgauthOutcome(Args(text, len), w, env, ReceiveCommand(children, text, len, w, env))
  {
    Executed(children, text, len, "AT+XGAUTH", C.Write, w, env, Netconf, Xgauth);
    XgauthWrites(Args(text, len), w, env);
  }

  /** With a record in the file the cid that counts is the stored one. */
  lemma XgauthAnswersStored(children: seq<Extension>, text: string, len: nat, w: World, env: Env, stored: Dc, m: nat)
    requires Netconf in children && Typed(text, len, "AT+XGAUTH", C.Write) && |w.calls.dcs| > 0
    requires Runs.Holds(w.file, stored, m) && m <= Runs.TOKEN_LEN && XgauthAccepts(Args(text, len))
    ensures var r := ReceiveCommand(children, text, len, w, env);
            var ok := env.io.storeOk && env.number(Args(text, len)[0]) == stored.cid && stored.cid != -1;
            r.consumed && r.world.host == w.host + [if ok then OK else ERROR]
  {
    XgauthAnswers(children, text, len, w, env);
    Runs.RefreshHolds(StoreOf(w), stored, env.io.junk, m);
  }

  // ----- Queries of the record

  /** The record is loaded into context 0 and the report is made from there. */
  predicate Reports(w: World, env: Env, text: string, r: Outcome)
    requires |w.calls.dcs| > 0
  {
    var loaded := Runs.Refresh(StoreOf(w), env.io.junk).dc;
    r == Answer(w.(calls := w.calls.(dcs := w.calls.dcs[0 := loaded])), Cut(text))
  }

  lemma CgdcontReports(parsed: C.Command, w: World, env: Env)
    requires parsed.kind == C.Query && |w.calls.dcs| > 0
    ensures Reports(w, env, CgdcontReport(Runs.Refresh(StoreOf(w), env.io.junk).dc), Execute(Cgdcont, parsed, w, env))
  {
    QueriesReport(w, env);
  }

  lemma XgauthReports(parsed: C.Command, w: World, env: Env)
    requires parsed.kind == C.Query && |w.calls.dcs| > 0
    ensures Reports(w, env, XgauthReport(Runs.Refresh(StoreOf(w), env.io.junk).dc), Execute(Xgauth, parsed, w, env))
  {
    QueriesReport(w, env);
  }

  lemma QueriesReport(w: World, env: Env)
    requires |w.calls.dcs| > 0
    ensures Reports(w, env, CgdcontReport(Runs.Refresh(StoreOf(w), env.io.junk).dc), CgdcontQuery(w, env))
    ensures Reports(w, env, XgauthReport(Runs.Refresh(StoreOf(w), env.io.junk).dc), XgauthQuery(w, env))
  {
  }

  // ----- The other commands of Netconf

  /** Test commands of the three are left to the modem. */
  lemma TestsAreLeft(children: seq<Extension>, text: string, len: nat, w: World, env: Env)
    requires || Typed(text, len, "AT+CGDCONT", C.Test)
             || Typed(text, len, "AT+XGAUTH", C.Test)
             || Typed(text, len, "AT+CGACT", C.Test)
    ensures ReceiveCommand(children, text, len, w, env) == Outcome(w, false)
  {
    var parsed := C.Parse(text, len).value;
    NetconfNamed(parsed.name);
    ReceiveExecutes(children, text, len, w, env);
    if EqualsIgnoreCase(parsed.name, "AT+CGDCONT") {
      TakenOnly(children, parsed, Netconf, Cgdcont);
    } else if EqualsIgnoreCase(parsed.name, "AT+XGAUTH") {
      TakenOnly(children, parsed, Netconf, Xgauth);
    } else {
      TakenOnly(children, parsed, Netconf, Cgact);
    }
  }

  lemma CgactReports(parsed: C.Command, w: World, env: Env)
    requires parsed.kind == C.Query
    ensures Execute(Cgact, parsed, w, env) == Answer(w, Cut(CgactReport(Dc0(w))))
  {
  }

  lemma AtzAnswers(parsed: C.Command, w: World, env: Env)
    ensures Execute(Atz, parsed, w, env) == Answer(w, if parsed.kind == C.Undefined then ERROR else OK)
  {
  }

  /** Only the cid of the activated context 0 has an address. */
  lemma CgpaddrAnswers(parsed: C.Command, w: World, env: Env)
    ensures var kind, args := parsed.kind, parsed.args;
            Execute(Cgpaddr, parsed, w, env) ==
            if kind == C.Test || (kind == C.Write && |args| == 0) then
              Answer(w, Cut(CidReport("+CGPADDR: ", Dc0(w))))
            else if kind == C.Write && Dc0(w).activated && env.number(args[0]) == Dc0(w).cid then
              Answer(w, Cut(CgpaddrReport(Dc0(w))))
            else Answer(w, ERROR)
  {
  }

  lemma CgcontrdpAnswers(parsed: C.Command, w: World, env: Env)
    ensures var kind, args := parsed.kind, parsed.args;
            Execute(Cgcontrdp, parsed, w, env) ==
            if kind == C.Test || kind == C.Query then Answer(w, Cut(CidReport("+CGCONTRDP: ", Dc0(w))))
            else if kind == C.Write && |args| > 0 && Dc0(w).activated && env.number(args[0]) == Dc0(w).cid then
              Answer(w, Cut(CgcontrdpReport(Dc0(w))))
            else Answer(w, ERROR)
  {
  }

  // ----- AT+CGMM, which both extensions have

  /** A line and an OK, as the host reads them. */
  function Told(line: string): string {
    "\r\n" + (line + "\r\n\r\nOK\r\n")
  }

  lemma ShortLine(w: World, line: string)
    requires |line| <= 117
    ensures Reply(w, Line(line, "")) == Answer(w, Told(line))
  {
    assert "" + FINAL == FINAL;
  }

  const NETCONF_MODEL := "XMM7272 with Smart Modem Manager"
  const ATSAMPLE_MODEL := "XMM7272 with Smart Modem Manager (Atsample)"

  lemma NetconfModel(w: World, env: Env)
    ensures ExecuteAsQuery(NetconfCgmm, w, env) == Answer(w, Told(NETCONF_MODEL))
  {
    ShortLine(w, NETCONF_MODEL);
  }

  lemma AtsampleModel(w: World, env: Env)
    ensures ExecuteAsQuery(SampleCgmm, w, env) == Answer(w, Told(ATSAMPLE_MODEL))
  {
    ShortLine(w, ATSAMPLE_MODEL);
  }

  lemma CgmmExecutes(e: Extension, parsed: C.Command, w: World, env: Env)
    ensures Execute(if e == Netconf then NetconfCgmm else SampleCgmm, parsed, w, env) ==
            match parsed.kind
            case Test => Answer(w, OK)
            case Query => Answer(w, Told(if e == Netconf then NETCONF_MODEL else ATSAMPLE_MODEL))
            case _ => Answer(w, ERROR)
  {
    if parsed.kind == C.Query {
      NetconfModel(w, env);
      AtsampleModel(w, env);
    }
  }

  /** The first extension answers. */
  lemma CgmmAnswers(children: seq<Extension>, text: string, len: nat, w: World, env: Env)
    requires children != [] && len <= 256 && C.Parse(text, len).Some?
    requires EqualsIgnoreCase(C.Parse(text, len).value.name, "AT+CGMM")
    ensures ReceiveCommand(children, text, len, w, env) ==
            match C.Parse(text, len).value.kind
            case Test => Answer(w, OK)
            case Query => Answer(w, Told(if children[0] == Netconf then NETCONF_MODEL else ATSAMPLE_MODEL))
            case _ => Answer(w, ERROR)
  {
    var parsed := C.Parse(text, len).value;
    CgmmFound(parsed.name);
    ReceiveExecutes(children, text, len, w, env);
    CgmmExecutes(children[0], parsed, w, env);
  }

  lemma CgmmFound(name: string)
    requires EqualsIgnoreCase(name, "AT+CGMM")
    ensures FindCommand(Commands(Netconf), name) == Some(NetconfCgmm)
    ensures FindCommand(Commands(Atsample), name) == Some(SampleCgmm)
  {
    NetconfFound(name);
    AtsampleFound(name);
  }

  // ----- The commands of Atsample

  /** The device is asked for the identifier and a SCID waits for it. */
  function Asks(w: World): Outcome {
    Outcome(w.(pending := w.pending + [PendingScid], device := w.device + ["AT+CCID\r\n"]), true)
  }

  /** AT^SCID is enqueued and translated. */
  lemma ScidAnswers(children: seq<Extension>, text: string, len: nat, kind: C.Kind, w: World, env: Env)
    requires Atsample in children && Typed(text, len, "AT^SCID", kind)
    ensures var r := ReceiveCommand(children, text, len, w, env);
            r == if kind == C.Query then Asks(w) else if kind == C.Test then Answer(w, OK) else Answer(w, ERROR)
  {
    Executed(children, text, len, "AT^SCID", kind, w, env, Atsample, Scid);
  }

  /** The line "AT^SCID" with any line end. */
  lemma ScidTyped(children: seq<Extension>, t: string, w: World, env: Env)
    requires Atsample in children && C.Terminator(t) && |t| <= 249
    ensures var text := "AT^SCID" + t;
            ReceiveCommand(children, text, |text|, w, env) == Asks(w)
  {
    assert C.CleanName("AT^SCID");
    C.RoundTrip("AT^SCID", C.Execution, t);
    ScidAnswers(children, "AT^SCID" + t, |"AT^SCID" + t|, C.Query, w, env);
  }

  /** Commands that only count their arguments. */
  predicate Counts(c: Command, needed: nat) {
    (c == Scpin && needed == 3) || (c == Ssio && needed == 2) || (c == Spio && needed == 1)
  }

  lemma CountingAnswers(c: Command, needed: nat, parsed: C.Command, w: World, env: Env)
    requires Counts(c, needed)
    ensures Execute(c, parsed, w, env) ==
            Answer(w, if parsed.kind == C.Write && |parsed.args| >= needed then OK else ERROR)
  {
  }

  lemma SradcAnswers(parsed: C.Command, w: World, env: Env)
    ensures var args := parsed.args;
            Execute(Sradc, parsed, w, env) ==
            Answer(w, if parsed.kind == C.Write && |args| > 0 then Cut(SradcReport(env.number(args[0]))) else ERROR)
  {
  }

  lemma LineTold(name: string, body: string)
    ensures Line(name, body) == Told(name + body)
  {
  }

  lemma SmoniAnswers(parsed: C.Command, w: World, env: Env)
    ensures Execute(Smoni, parsed, w, env) ==
            Answer(w, if parsed.kind == C.Query then Cut(Told("^SMONI: " + env.registration))
                      else if parsed.kind == C.Test then OK
                      else ERROR)
  {
    LineTold("^SMONI: ", env.registration);
  }

  /** The device reads this, and nothing else happens. */
  function Forward(w: World, text: string): Outcome {
    Outcome(w.(device := w.device + [text]), true)
  }

  /** AT^SWWAN is forwarded as AT+CGACT in the same form. */
  lemma SwwanAnswers(parsed: C.Command, w: World, env: Env)
    ensures var args := parsed.args;
            Execute(Swwan, parsed, w, env) ==
            match parsed.kind
            case Test => Forward(w, "AT+CGACT=?")
            case Query => Forward(w, "AT+CGACT?")
            case Write =>
              if |args| < 2 then Answer(w, ERROR)
              else Forward(w, Cut(SwwanText(env.number(args[0]), env.number(args[1]))))
            case Undefined => Answer(w, ERROR)
  {
  }

  /** What the modem reads: the activation with the state first and the cid second. */
  lemma SwwanParses(state: int, cid: int)
    ensures var text := SwwanText(state, cid);
            C.Parse(text, |text|) == Some(C.Command("AT+CGACT", C.Write, [Dec(state), Dec(cid)]))
  {
    var form := C.Assignment([C.Arg(Dec(state), false), C.Arg(Dec(cid), false)]);
    assert C.CleanName("AT+CGACT") && C.CleanForm(form);
    C.RoundTrip("AT+CGACT", form, "\r\n");
    assert C.ExpectedArgs(form) == [Dec(state), Dec(cid)];
    SwwanPrints(state, cid);
  }

  lemma SwwanPrints(state: int, cid: int)
    ensures C.Print("AT+CGACT", C.Assignment([C.Arg(Dec(state), false), C.Arg(Dec(cid), false)])) + "\r\n"
         == SwwanText(state, cid)
  {
    assert C.PrintArgs([C.Arg(Dec(state), false), C.Arg(Dec(cid), false)]) == [Dec(state), Dec(cid)];
  }

  // ----- A fresh proxy

  /** Before anything was defined or reported: no definition, no activation, not registered. */
  lemma FreshAnswers(parsed: C.Command, env: Env)
    ensures var w := Protocol.INITIAL;
            && (parsed.kind == C.Query ==>
                  && Execute(Cgdcont, parsed, w, env) == Answer(w, "\r\n+CGDCONT:\r\n\r\nOK\r\n")
                  && Execute(Cgact, parsed, w, env) == Answer(w, "\r\n+CGACT:\r\n\r\nOK\r\n"))
            && (parsed.kind == C.Write ==> Execute(Cgact, parsed, w, env) == Answer(w, ERROR))
  {
    var w := Protocol.INITIAL;
    FreshReports();
    if parsed.kind == C.Query {
      CgdcontReports(parsed, w, env);
      assert w.calls.dcs[0 := FRESH] == w.calls.dcs;
      CgactReports(parsed, w, env);
    }
  }

  lemma FreshReports()
    ensures Cut(CgdcontReport(FRESH)) == "\r\n+CGDCONT:\r\n\r\nOK\r\n"
    ensures Cut(CgactReport(FRESH)) == "\r\n+CGACT:\r\n\r\nOK\r\n"
  {
  }
}
