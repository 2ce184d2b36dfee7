/** The running proxy: roots, extension parsers, handlers and the re-injecting writer, as the
    objects they are. Every method computes the reaction World gives for it, although whatever
    it writes is first offered to a root again; that the recursion ends is part of the proof. */
module SmmCores {
  import opened Text
  import opened Limits
  import opened DcContexts
  import opened DataCalls
  import opened World
  import opened NetconfState
  import opened Reinjection
  import opened Persistence
  import C = AtCommandParser
  import R = AtResponseParser
  import Protocol
  import Runs = ContextRuns

  /** Foreign text reaches no handler, so it ranks below the handlers that write it. */
  ghost function CommandRank(s: string): nat {
    if Foreign(s) then 0 else 2
  }

  ghost function ResponseRank(s: string): nat {
    if Quiet(s) then 0 else 2
  }

  /** The buffer of a writer, read again up to its NUL. */
  lemma ReinjectedData(buff: string)
    requires |buff| < MSG_BUF_SIZE
    ensures var len := |CStr(buff)|;
            var data := buff + ['\0'];
            && len < |data| && data[len] == '\0' && CStr(data[..len]) == CStr(buff)
            && C.TokensFit(CStr(data[..len]))
  {
    var s := CStr(buff);
    assert (buff + ['\0'])[..|s|] == s;
    CStrIdentity(s);
    C.ShortTextFits(s);
  }

  /** What the remaining children make of a command; a malformed one passes them all. */
  ghost function Offered(parsed: Option<C.Command>, children: seq<Extension>, w: World, env: Env): Outcome {
    if parsed.Some? then CommandChildren(children, parsed.value, w, env) else Outcome(w, false)
  }

  lemma OfferNext(parsed: Option<C.Command>, children: seq<Extension>, i: nat, w: World, env: Env)
    requires i < |children|
    ensures var r := Offered(parsed, children[i..], w, env);
            match parsed
            case None => r == Outcome(w, false)
            case Some(command) =>
              var first := CommandChild(children[i], command, w, env);
              r == if first.consumed then first else CommandChildren(children[i + 1..], command, first.world, env)
  {
    assert children[i..][0] == children[i] && children[i..][1..] == children[i + 1..];
  }

  lemma TextData(text: string)
    requires '\0' !in text
    ensures (text + ['\0'])[..|text|] == text && CStr(text) == text
  {
    CStrIdentity(text);
  }

  class SmmCore {
    const netconf: Netconf
    const out: FinalOutputWriter
    /** The child parsers of both roots, in the order they were added. */
    const commands: seq<Extension>
    const responses: seq<Extension>
    /** The requests sent to the modem interface. */
    var ril: seq<RilRequest>

    ghost predicate Valid()
      reads netconf
    {
      netconf.Valid()
    }

    ghost function View(): World
      reads this, netconf, netconf.persist, out, netconf.contexts
    {
      World(netconf.pending, out.host, out.device, ril, netconf.CallState(), netconf.persist.file, netconf.rat)
    }

    constructor (commands: seq<Extension>, responses: seq<Extension>)
      ensures Valid() && this.commands == commands && this.responses == responses
      ensures View() == Protocol.INITIAL
    {
      this.commands, this.responses := commands, responses;
      netconf := new Netconf();
      out := new FinalOutputWriter();
      ril := [];
    }

    // ----- The proxy writer

    /** writeToHost: offer the cut text to the command root, then pass it on. */
    method WriteToHost(text: string, env: Env)
      requires Valid() && Foreign(text)
      modifies this, netconf`pending, netconf.persist, out, netconf.contexts
      ensures View() == Say(old(View()), text)
      decreases 1, 0
    {
      var buff := Cut(text);
      var length := |CStr(buff)|;
      CutForeign(text);
      CutForeign(buff);
      ReinjectedData(buff);
      var consumed := OnCommandData(buff + ['\0'], length, env);
      ForeignIsIgnored(commands, CStr(buff), length, old(View()), env);
      if !consumed {
        out.WriteToHost(buff);
      }
    }

    /** writeToDevice: offer the cut text to the response root, then pass it on. */
    method WriteToDevice(text: string, env: Env)
      requires Valid() && Quiet(text)
      modifies this, netconf`pending, netconf.persist, out, netconf.contexts
      ensures View() == Tell(old(View()), text)
      decreases 1, 0
    {
      var buff := Cut(text);
      var length := |CStr(buff)|;
      CutQuiet(text);
      CutQuiet(buff);
      ReinjectedData(buff);
      var consumed := OnResponseData(buff + ['\0'], length, env);
      QuietIsIgnored(responses, CStr(buff), old(View()));
      if !consumed {
        out.WriteToDevice(buff);
      }
    }

    // ----- The command root

    /** Each child in turn, until one consumes the data. */
    method OnCommandData(data: seq<char>, len: nat, env: Env) returns (ret: bool)
      requires Valid() && len < |data| && data[len] == '\0' && C.TokensFit(CStr(data[..len]))
      modifies this, netconf`pending, netconf.persist, out, netconf.contexts
      ensures Outcome(View(), ret) == ProcessCommand(commands, CStr(data[..len]), len, old(View()), env)
      decreases CommandRank(CStr(data[..len])), 3
    {
      ret := false;
      ghost var parsed := C.Parse(CStr(data[..len]), len);
      ghost var result := Offered(parsed, commands, View(), env);
      var i := 0;
      while i < |commands| && !ret
        invariant i <= |commands|
        invariant result == if ret then Outcome(View(), true) else Offered(parsed, commands[i..], View(), env)
      {
        OfferNext(parsed, commands, i, View(), env);
        ret := OnChildCommandData(commands[i], data, len, env);
        i := i + 1;
      }
    }

    /** AtCommandParser::onDataAvailable. */
    method OnChildCommandData(e: Extension, data: seq<char>, len: nat, env: Env) returns (ret: bool)
      requires Valid() && len < |data| && data[len] == '\0' && C.TokensFit(CStr(data[..len]))
      modifies this, netconf`pending, netconf.persist, out, netconf.contexts
      ensures var parsed := C.Parse(CStr(data[..len]), len);
              Outcome(View(), ret) ==
              if parsed.Some? then CommandChild(e, parsed.value, old(View()), env) else Outcome(old(View()), false)
      decreases CommandRank(CStr(data[..len])), 2
    {
      ret := false;
      var parsed, overrun := C.Tokenise(data, len);
      if parsed.Some? {
        var c := DispatchCommand(Commands(e), parsed.value.name);
        if c.Some? {
          if Foreign(CStr(data[..len])) {
            ForeignName(CStr(data[..len]), len);
            NoCommandFound(Commands(e), parsed.value.name);
          }
          ret := ExecuteCommand(c.value, parsed.value, env);
        }
      }
    }

    /** MessageParser::dispatchMessage over the registered commands. */
    method DispatchCommand(messages: seq<Command>, name: string) returns (c: Option<Command>)
      ensures c == FindCommand(messages, name)
    {
      c := None;
      var i := 0;
      while i < |messages|
        invariant i <= |messages|
        invariant FindCommand(messages, name) == FindCommand(messages[i..], name)
      {
        assert messages[i..][0] == messages[i] && messages[i..][1..] == messages[i + 1..];
        if EqualsIgnoreCase(name, Name(messages[i])) {
          return Some(messages[i]);
        }
        i := i + 1;
      }
    }

    // ----- The command handlers

    method ExecuteCommand(c: Command, parsed: C.Command, env: Env) returns (ret: bool)
      requires Valid()
      modifies this, netconf`pending, netconf.persist, out, netconf.contexts
      ensures Outcome(View(), ret) == Execute(c, parsed, old(View()), env)
      decreases 1, 5
    {
      match parsed.kind {
        case Test => ret := ExecuteTest(c, env);
        case Write => ret := ExecuteWrite(c, parsed.args, env);
        case Query => ret := ExecuteQuery(c, env);
        case Undefined => ret := Error(env);
      }
    }

    method Success(env: Env) returns (ret: bool)
      requires Valid()
      modifies this, netconf`pending, netconf.persist, out, netconf.contexts
      ensures Outcome(View(), ret) == OnSuccess(old(View()))
      decreases 1, 1
    {
      WriteToHost(OK_TEXT, env);
      ret := true;
    }

    method Error(env: Env) returns (ret: bool)
      requires Valid()
      modifies this, netconf`pending, netconf.persist, out, netconf.contexts
      ensures Outcome(View(), ret) == OnError(old(View()))
      decreases 1, 1
    {
      WriteToHost(ERROR_TEXT, env);
      ret := true;
    }

    method ReplyLine(name: string, body: string, env: Env) returns (ret: bool)
      requires Valid() && name != "" && Ordinary(name[0])
      modifies this, netconf`pending, netconf.persist, out, netconf.contexts
      ensures Outcome(View(), ret) == Reply(old(View()), Line(name, body))
      decreases 1, 1
    {
      LineIsForeign(name, body);
      WriteToHost(Line(name, body), env);
      ret := true;
    }

    method ExecuteTest(c: Command, env: Env) returns (ret: bool)
      requires Valid()
      modifies this, netconf`pending, netconf.persist, out, netconf.contexts
      ensures Outcome(View(), ret) == ExecuteAsTest(c, old(View()))
      decreases 1, 4
    {
      match c {
        case Atz => ret := Success(env);
        case NetconfCgmm => ret := Success(env);
        case SampleCgmm => ret := Success(env);
        case Scid => ret := Success(env);
        case Smoni => ret := Success(env);
        case Cgpaddr => ret := AddressTest("+CGPADDR: ", env);
        case Cgcontrdp => ret := AddressTest("+CGCONTRDP: ", env);
        case Cgdcont => ret := false;
        case Xgauth => ret := false;
        case Cgact => ret := false;
        case Swwan =>
          WriteToDevice("AT+CGACT=?", env);
          ret := true;
        case _ => ret := Error(env);
      }
    }

    method AddressTest(name: string, env: Env) returns (ret: bool)
      requires Valid() && name != "" && Ordinary(name[0])
      modifies this, netconf`pending, netconf.persist, out, netconf.contexts
      ensures var w := old(View());
              Outcome(View(), ret) == Reply(w, Line(name, if Dc0(w).activated then Dec(Dc0(w).cid) else ""))
      decreases 1, 2
    {
      var dc := netconf.contexts[0];
      ret := ReplyLine(name, if dc.activated then Dec(dc.cid) else "", env);
    }

    /** loadDcContext on context 0; the context keeps its value when it fails. */
    method LoadContext(env: Env)
      requires Valid()
      modifies netconf.contexts
      ensures View() == WithStore(old(View()), Runs.Refresh(StoreOf(old(View())), env.io.junk))
    {
      var dc := netconf.contexts[0];
      var loaded := netconf.persist.LoadDcContext(dc, env.io.junk);
      assert Values(netconf.contexts) == old(Values(netconf.contexts))[0 := dc.Value()];
    }

    /** storeDcContext on context 0, and the final result. */
    method StoreContext(env: Env) returns (ret: bool)
      requires Valid()
      modifies this, netconf`pending, netconf.persist, out, netconf.contexts
      ensures var r := Runs.Save(StoreOf(old(View())), env.io);
              var w1 := WithStore(old(View()), r.store);
              Outcome(View(), ret) == if r.ok then OnSuccess(w1) else OnError(w1)
      decreases 1, 2
    {
      var dc := netconf.contexts[0];
      var stored := netconf.persist.StoreDcContext(dc, env.io.storeOk, env.io.memory);
      assert Values(netconf.contexts) == old(Values(netconf.contexts))[0 := dc.Value()];
      if stored {
        ret := Success(env);
      } else {
        ret := Error(env);
      }
    }

    method SetDefinition(cid: int, pdpType: string, apn: string)
      requires Valid()
      modifies netconf.contexts
      ensures var st := StoreOf(old(View()));
              View() == WithStore(old(View()), st.(dc := st.dc.(cid := cid, pdpType := pdpType, apn := apn)))
    {
      var dc := netconf.contexts[0];
      dc.cid, dc.pdpType, dc.apn := cid, pdpType, apn;
      assert Values(netconf.contexts) == old(Values(netconf.contexts))[0 := dc.Value()];
    }

    method SetCredentials(authMode: int, authName: string, authPwd: string)
      requires Valid()
      modifies netconf.contexts
      ensures var st := StoreOf(old(View()));
              var dc := st.dc.(authMode := authMode, authName := authName, authPwd := authPwd);
              View() == WithStore(old(View()), st.(dc := dc))
    {
      var dc := netconf.contexts[0];
      dc.authMode, dc.authName, dc.authPwd := authMode, authName, authPwd;
      assert Values(netconf.contexts) == old(Values(netconf.contexts))[0 := dc.Value()];
    }

    method ExecuteCgdcontQuery(env: Env) returns (ret: bool)
      requires Valid()
      modifies this, netconf`pending, netconf.persist, out, netconf.contexts
      ensures Outcome(View(), ret) == CgdcontQuery(old(View()), env)
      decreases 1, 2
    {
      LoadContext(env);
      var dc := netconf.contexts[0];
      if dc.cid != -1 {
        ret := ReplyLine("+CGDCONT:", [' '] + Join([Dec(dc.cid), Quoted(dc.pdpType), Quoted(dc.apn), Quoted(dc.pdpAddr),
                                                   Dec(dc.dComp), Dec(dc.hComp)], ','), env);
      } else {
        ret := ReplyLine("+CGDCONT:", "", env);
      }
    }

    method ExecuteCgdcontWrite(args: seq<string>, env: Env) returns (ret: bool)
      requires Valid()
      modifies this, netconf`pending, netconf.persist, out, netconf.contexts
      ensures Outcome(View(), ret) == CgdcontWrite(args, old(View()), env)
      decreases 1, 3
    {
      if |args| < 3 || (args[1] != "IP" && args[1] != "IPV4V6" && args[1] != "IPV6") {
        ret := Error(env);
        return;
      }
      if |args| >= 4 && !env.validAddress(args[3]) {
        ret := Error(env);
        return;
      }
      LoadContext(env);
      SetDefinition(env.number(args[0]), args[1], args[2]);
      ret := StoreContext(env);
      ghost var w := old(View());
      ghost var loaded := Runs.Refresh(StoreOf(w), env.io.junk);
      ghost var defined := loaded.(dc := loaded.dc.(cid := env.number(args[0]), pdpType := args[1], apn := args[2]));
      WithStoreTwice(w, loaded, defined);
      WithStoreTwice(w, defined, Runs.Save(defined, env.io).store);
    }

    method ExecuteXgauthQuery(env: Env) returns (ret: bool)
      requires Valid()
      modifies this, netconf`pending, netconf.persist, out, netconf.contexts
      ensures Outcome(View(), ret) == XgauthQuery(old(View()), env)
      decreases 1, 2
    {
      LoadContext(env);
      var dc := netconf.contexts[0];
      if dc.cid != -1 {
        ret := ReplyLine("+XGAUTH:", [' '] + Join([Dec(dc.cid), Dec(dc.authMode), Quoted(dc.authName),
                                                  Quoted(dc.authPwd)], ','), env);
      } else {
        ret := ReplyLine("+XGAUTH:", "", env);
      }
    }

    method ExecuteXgauthWrite(args: seq<string>, env: Env) returns (ret: bool)
      requires Valid()
      modifies this, netconf`pending, netconf.persist, out, netconf.contexts
      ensures Outcome(View(), ret) == XgauthWrite(args, old(View()), env)
      decreases 1, 3
    {
      if |args| < 4 || |args[2]| > Runs.AUTH_NAME_PWD_LEN || |args[3]| > Runs.AUTH_NAME_PWD_LEN {
        ret := Error(env);
        return;
      }
      var cid, authMode := env.number(args[0]), env.number(args[1]);
      LoadContext(env);
      ghost var w := old(View());
      ghost var loaded := Runs.Refresh(StoreOf(w), env.io.junk);
      ghost var secured := loaded.(dc := loaded.dc.(authMode := authMode, authName := args[2], authPwd := args[3]));
      WithStoreTwice(w, loaded, secured);
      WithStoreTwice(w, secured, Runs.Save(secured, env.io).store);
      if netconf.contexts[0].cid == -1 || netconf.contexts[0].cid != cid {
        assert !Runs.Authenticate(StoreOf(w), cid, authMode, args[2], args[3], env.io).ok;
        ret := Error(env);
        return;
      }
      SetCredentials(authMode, args[2], args[3]);
      ret := StoreContext(env);
    }

    /** setupDataCall: an unknown PDP type or a refused request fails. */
    method SetupCall(env: Env) returns (sent: bool)
      requires Valid()
      modifies this
      ensures sent <==> RequestFor(true, old(View())).Some? && env.sendOk
      ensures View() == if sent then old(View()).(ril := old(ril) + [RequestFor(true, old(View())).value])
                        else old(View())
    {
      sent := false;
      var dc := netconf.contexts[0];
      if dc.pdpType == "IP" || dc.pdpType == "IPV4V6" || dc.pdpType == "IPV6" {
        if env.sendOk {
          ril := ril + [SetupDataCall(BearerOf(netconf.rat), dc.apn, dc.pdpType)];
          sent := true;
        }
      }
    }

    /** releaseDataCall: the cid goes out as one byte. */
    method ReleaseCall(env: Env) returns (sent: bool)
      requires Valid()
      modifies this
      ensures sent <==> env.sendOk
      ensures View() == if sent then old(View()).(ril := old(ril) + [RequestFor(false, old(View())).value])
                        else old(View())
    {
      sent := false;
      if env.sendOk {
        ril := ril + [DeactivateDataCall(netconf.contexts[0].cid % 256)];
        sent := true;
      }
    }

    method ExecuteCgactWrite(args: seq<string>, env: Env) returns (ret: bool)
      requires Valid()
      modifies this, netconf`pending, netconf.persist, out, netconf.contexts
      ensures Outcome(View(), ret) == CgactWrite(args, old(View()), env)
      decreases 1, 2
    {
      if |args| < 2 {
        ret := Error(env);
        return;
      }
      var state := env.number(args[0]);
      if netconf.rat == NoRat {
        ret := Error(env);
        return;
      }
      if netconf.contexts[0].activated == (state == 1) {
        ret := Success(env);
        return;
      }
      var sent;
      if state == 1 {
        sent := SetupCall(env);
      } else {
        sent := ReleaseCall(env);
      }
      if sent {
        var suspicious := netconf.EnqueuePendingMessage(PendingCgact);
        ret := true;
      } else {
        ret := Error(env);
      }
    }

    method ExecuteCgactQuery(env: Env) returns (ret: bool)
      requires Valid()
      modifies this, netconf`pending, netconf.persist, out, netconf.contexts
      ensures Outcome(View(), ret) == Reply(old(View()), CgactReport(Dc0(old(View()))))
      decreases 1, 2
    {
      var dc := netconf.contexts[0];
      if dc.cid != -1 {
        ret := ReplyLine("+CGACT:", [' '] + Join([Dec(dc.cid), if dc.activated then "1" else "0"], ','), env);
      } else {
        ret := ReplyLine("+CGACT:", "", env);
      }
    }

    /** The SCID translation: enqueue, then ask the device. */
    method ExecuteScidQuery(env: Env) returns (ret: bool)
      requires Valid()
      modifies this, netconf`pending, netconf.persist, out, netconf.contexts
      ensures Outcome(View(), ret) == ScidQuery(old(View()))
      decreases 1, 2
    {
      var suspicious := netconf.EnqueuePendingMessage(PendingScid);
      WriteToDevice("AT+CCID\r\n", env);
      ret := true;
    }

    method ExecuteQuery(c: Command, env: Env) returns (ret: bool)
      requires Valid()
      modifies this, netconf`pending, netconf.persist, out, netconf.contexts
      ensures Outcome(View(), ret) == ExecuteAsQuery(c, old(View()), env)
      decreases 1, 4
    {
      match c {
        case Atz => ret := Success(env);
        case NetconfCgmm => ret := ReplyLine("XMM7272 with Smart Modem Manager", "", env);
        case SampleCgmm => ret := ReplyLine("XMM7272 with Smart Modem Manager (Atsample)", "", env);
        case Cgdcont => ret := ExecuteCgdcontQuery(env);
        case Xgauth => ret := ExecuteXgauthQuery(env);
        case Cgact => ret := ExecuteCgactQuery(env);
        case Cgcontrdp => ret := AddressTest("+CGCONTRDP: ", env);
        case Scid => ret := ExecuteScidQuery(env);
        case Smoni => ret := ReplyLine("^SMONI: ", env.registration, env);
        case Swwan =>
          WriteToDevice("AT+CGACT?", env);
          ret := true;
        case _ => ret := Error(env);
      }
    }

    method ExecuteCgpaddrWrite(args: seq<string>, env: Env) returns (ret: bool)
      requires Valid()
      modifies this, netconf`pending, netconf.persist, out, netconf.contexts
      ensures Outcome(View(), ret) == CgpaddrWrite(args, old(View()), env)
      decreases 1, 3
    {
      if |args| < 1 {
        ret := AddressTest("+CGPADDR: ", env);
        return;
      }
      var cid := env.number(args[0]);
      var dc := netconf.contexts[0];
      if dc.activated && cid == dc.cid {
        ret := ReplyLine("+CGPADDR: ", Join([Dec(cid), Quoted(dc.pdpAddr)], ','), env);
      } else {
        ret := Error(env);
      }
    }

    method ExecuteCgcontrdpWrite(args: seq<string>, env: Env) returns (ret: bool)
      requires Valid()
      modifies this, netconf`pending, netconf.persist, out, netconf.contexts
      ensures Outcome(View(), ret) == CgcontrdpWrite(args, old(View()), env)
      decreases 1, 3
    {
      if |args| < 1 {
        ret := Error(env);
        return;
      }
      var cid := env.number(args[0]);
      var dc := netconf.contexts[0];
      if dc.activated && cid == dc.cid {
        ret := ReplyLine("+CGCONTRDP: ", Join([Dec(cid), "0", Quoted(dc.apn), Quoted(dc.pdpAddr), Quoted(dc.pdpAddr),
                                              Quoted(dc.dns1), Quoted(dc.dns2)], ','), env);
      } else {
        ret := Error(env);
      }
    }

    method ExecuteSwwanWrite(args: seq<string>, env: Env) returns (ret: bool)
      requires Valid()
      modifies this, netconf`pending, netconf.persist, out, netconf.contexts
      ensures Outcome(View(), ret) == SwwanWrite(args, old(View()), env)
      decreases 1, 2
    {
      if |args| < 2 {
        ret := Error(env);
      } else {
        SwwanIsQuiet(env.number(args[0]), env.number(args[1]));
        WriteToDevice(SwwanText(env.number(args[0]), env.number(args[1])), env);
        ret := true;
      }
    }

    /** Commands that only count their arguments. */
    method Acknowledge(needed: nat, args: seq<string>, env: Env) returns (ret: bool)
      requires Valid()
      modifies this, netconf`pending, netconf.persist, out, netconf.contexts
      ensures Outcome(View(), ret) == if |args| < needed then OnError(old(View())) else OnSuccess(old(View()))
      decreases 1, 2
    {
      if |args| < needed {
        ret := Error(env);
      } else {
        ret := Success(env);
      }
    }

    method ExecuteWrite(c: Command, args: seq<string>, env: Env) returns (ret: bool)
      requires Valid()
      modifies this, netconf`pending, netconf.persist, out, netconf.contexts
      ensures Outcome(View(), ret) == ExecuteAsWrite(c, args, old(View()), env)
      decreases 1, 4
    {
      match c {
        case Atz => ret := Success(env);
        case Cgdcont => ret := ExecuteCgdcontWrite(args, env);
        case Xgauth => ret := ExecuteXgauthWrite(args, env);
        case Cgact => ret := ExecuteCgactWrite(args, env);
        case Cgpaddr => ret := ExecuteCgpaddrWrite(args, env);
        case Cgcontrdp => ret := ExecuteCgcontrdpWrite(args, env);
        case Scpin => ret := Acknowledge(3, args, env);
        case Ssio => ret := Acknowledge(2, args, env);
        case Spio => ret := Acknowledge(1, args, env);
        case Sradc =>
          if |args| < 1 {
            ret := Error(env);
          } else {
            ret := ReplyLine("^SRADC: ", Join([Dec(env.number(args[0])), "1", "875"], ','), env);
          }
        case Swwan => ret := ExecuteSwwanWrite(args, env);
        case _ => ret := Error(env);
      }
    }

    // ----- The response root

    method OnResponseData(data: seq<char>, len: nat, env: Env) returns (ret: bool)
      requires Valid() && len < |data| && data[len] == '\0' && len <= MAX_SMM_MESSAGE_SIZE
      modifies this, netconf`pending, netconf.persist, out, netconf.contexts
      ensures Outcome(View(), ret) == ProcessResponse(responses, CStr(data[..len]), old(View()))
      decreases ResponseRank(CStr(data[..len])), 3
    {
      ret := false;
      ghost var parsed := R.Parse(CStr(data[..len]));
      var i := 0;
      while i < |responses| && !ret
        invariant i <= |responses|
        invariant ResponseChildren(responses, parsed, old(View())) ==
                  if ret then Outcome(View(), true) else ResponseChildren(responses[i..], parsed, View())
      {
        assert responses[i..][0] == responses[i] && responses[i..][1..] == responses[i + 1..];
        ret := OnChildResponseData(responses[i], data, len, env);
        i := i + 1;
      }
    }

    /** AtResponseParser::onDataAvailable. */
    method OnChildResponseData(e: Extension, data: seq<char>, len: nat, env: Env) returns (ret: bool)
      requires Valid() && len < |data| && data[len] == '\0' && len <= MAX_SMM_MESSAGE_SIZE
      modifies this, netconf`pending, netconf.persist, out, netconf.contexts
      ensures Outcome(View(), ret) == ResponseChild(e, R.Parse(CStr(data[..len])), old(View()))
      decreases ResponseRank(CStr(data[..len])), 2
    {
      ret := false;
      var parsed := R.Tokenise(data, len);
      var m := DispatchMessage(Messages(e), parsed.name);
      if m.Some? {
        if Quiet(CStr(data[..len])) {
          QuietHasNoName(CStr(data[..len]));
        }
        ret := ExecuteResponse(m.value, parsed, env);
      }
    }

    method DispatchMessage(messages: seq<Message>, name: Option<string>) returns (m: Option<Message>)
      ensures m == FindMessage(messages, name)
    {
      m := None;
      var i := 0;
      while i < |messages|
        invariant i <= |messages|
        invariant FindMessage(messages, name) == FindMessage(messages[i..], name)
      {
        assert messages[i..][0] == messages[i] && messages[i..][1..] == messages[i + 1..];
        if name.Some? && EqualsIgnoreCase(name.value, MessageName(messages[i])) {
          return Some(messages[i]);
        }
        i := i + 1;
      }
    }

    // ----- The response handlers

    method ExecuteResponse(m: Message, parsed: R.Response, env: Env) returns (ret: bool)
      requires Valid()
      modifies this, netconf`pending, netconf.persist, out, netconf.contexts
      ensures Outcome(View(), ret) == ExecuteMessage(m, parsed, old(View()))
      decreases 1, 4
    {
      match m {
        case CmeErrorMessage => ret := FailPending(env);
        case ErrorMessage => ret := FailPending(env);
        case OkMessage => ret := SucceedPending(None, env);
        case CcidMessage =>
          ret := false;
          if (parsed.kind == R.OkKind || parsed.kind == R.ErrorKind) && |parsed.args| >= 1 {
            ret := SucceedPending(Some(parsed.args[0]), env);
          }
      }
    }

    /** Dequeue and onError. */
    method FailPending(env: Env) returns (ret: bool)
      requires Valid()
      modifies this, netconf`pending, netconf.persist, out, netconf.contexts
      ensures Outcome(View(), ret) == FailTop(old(View()))
      decreases 1, 3
    {
      ret := false;
      var message := netconf.DequeuePendingMessage();
      if message.Some? {
        ret := Error(env);
      }
    }

    /** Dequeue and onSuccess; ccid is the argument of a +CCID message, None for any other. */
    method SucceedPending(ccid: Option<string>, env: Env) returns (ret: bool)
      requires Valid()
      modifies this, netconf`pending, netconf.persist, out, netconf.contexts
      ensures Outcome(View(), ret) ==
              if ccid.Some? then SucceedTopWith(ccid.value, old(View())) else SucceedTop(old(View()))
      decreases 1, 3
    {
      ret := false;
      var message := netconf.DequeuePendingMessage();
      if message == Some(PendingCgact) {
        ret := Success(env);
      } else if message == Some(PendingScid) && ccid.Some? {
        WriteToHost(ScidText(ccid.value), env);
        ret := true;
      }
    }

    // ----- Answers of the modem interface

    method AnswerPending(success: bool, env: Env)
      requires Valid() && AnswerOk(View(), success)
      modifies this, netconf`pending, netconf.persist, out, netconf.contexts
      ensures View() == AnswerTop(old(View()), success)
      decreases 1, 4
    {
      var ret;
      if success {
        ret := SucceedPending(None, env);
      } else {
        ret := FailPending(env);
      }
    }

    method DataCallSetup(success: bool, call: DataCall, env: Env)
      requires Valid() && AnswerOk(View(), success)
      modifies this, netconf`pending, netconf`contexts, netconf`events, netconf.persist, out, netconf.contexts
      ensures Valid() && fresh(set o | o in netconf.contexts && o !in old(netconf.contexts))
      ensures View() == OnDataCallSetup(old(View()), success, call)
    {
      if success {
        netconf.UpdateDcContextFromDataCall(call);
      }
      AnswerPending(success, env);
    }

    method DataCallReleased(success: bool, env: Env)
      requires Valid() && AnswerOk(View(), success)
      modifies this, netconf`pending, netconf.persist, out, netconf.contexts
      ensures View() == OnDataCallReleased(old(View()), success)
    {
      AnswerPending(success, env);
    }

    method DataCallListChanged(calls: seq<DataCall>)
      requires Valid() && |calls| <= 255
      modifies netconf`contexts, netconf`events, netconf.contexts
      ensures Valid() && fresh(set o | o in netconf.contexts && o !in old(netconf.contexts))
      ensures View() == OnDataCallListChanged(old(View()), calls)
    {
      netconf.OnDataCallListChanged(calls);
    }

    /** onNwStateChanged: the access technology that was decoded. */
    method NetworkStateChanged(rat: Rat)
      modifies netconf`rat
      ensures View() == old(View()).(rat := rat)
    {
      netconf.rat := rat;
    }

    /** onRadioModeSet; the initial attach request that follows is not logged. */
    method RadioModeSet(success: bool, env: Env)
      requires Valid()
      modifies netconf.contexts
      ensures View() == OnRadioModeSet(old(View()), success, env.io.junk)
    {
      if success {
        LoadContext(env);
      }
    }

    // ----- Entry points

    /** smmcore_cmd_process: longer input is refused. */
    method ProcessHostCommand(data: seq<char>, len: nat, env: Env) returns (ret: bool)
      requires Valid() && len < |data| && data[len] == '\0'
      requires len <= MAX_SMM_MESSAGE_SIZE ==> C.TokensFit(CStr(data[..len])) && !C.Overruns(CStr(data[..len]), len)
      modifies this, netconf`pending, netconf.persist, out, netconf.contexts
      ensures Outcome(View(), ret) == ReceiveCommand(commands, CStr(data[..len]), len, old(View()), env)
    {
      ret := false;
      if len <= MAX_SMM_MESSAGE_SIZE {
        ret := OnCommandData(data, len, env);
      }
    }

    /** smmcore_rsp_process. */
    method ProcessModemResponse(data: seq<char>, len: nat, env: Env) returns (ret: bool)
      requires Valid() && len < |data| && data[len] == '\0'
      modifies this, netconf`pending, netconf.persist, out, netconf.contexts
      ensures Outcome(View(), ret) == ReceiveResponse(responses, CStr(data[..len]), len, old(View()))
    {
      ret := false;
      if len <= MAX_SMM_MESSAGE_SIZE {
        ret := OnResponseData(data, len, env);
      }
    }

    // ----- Steps and runs

    /** What each entry point asks for. */
    ghost predicate Servable(step: Protocol.Step) {
      match step
      case HostCommand(text, len, _) =>
        '\0' !in text && |text| == len && (len <= MAX_SMM_MESSAGE_SIZE ==> C.TokensFit(text) && !C.Overruns(text, len))
      case ModemResponse(text, len) => '\0' !in text && |text| == len
      case CallList(calls) => |calls| <= 255
      case _ => true
    }

    ghost function Config(): Protocol.Config {
      Protocol.Config(commands, responses)
    }

    /** One step on the objects is the step of Protocol on their value, so every theorem about its
        runs holds of the objects; env is met by the writers. */
    method Serve(step: Protocol.Step, env: Env)
      requires Valid() && Servable(step) && Protocol.Legal(View(), step)
      modifies this, netconf, netconf.persist, out, netconf.contexts
      ensures Valid() && fresh(set o | o in netconf.contexts && o !in old(netconf.contexts))
      ensures View() == Protocol.Apply(Config(), old(View()), step)
    {
      match step {
        case HostCommand(text, len, met) =>
          TextData(text);
          var consumed := ProcessHostCommand(text + ['\0'], len, met);
        case ModemResponse(text, len) =>
          TextData(text);
          var consumed := ProcessModemResponse(text + ['\0'], len, env);
        case SetupAnswer(success, call) => DataCallSetup(success, call, env);
        case ReleaseAnswer(success) => DataCallReleased(success, env);
        case CallList(calls) => DataCallListChanged(calls);
        case Registration(rat) => NetworkStateChanged(rat);
        case RadioMode(success, junk) => RadioModeSet(success, env.(io := env.io.(junk := junk)));
      }
    }
  }
}
