/** The SCID translation, and the asynchronous commands under a host that waits for each
    final result before it sends the next command. */
module SerialHost {
  import opened Text
  import opened Limits
  import opened DataCalls
  import opened World
  import opened Protocol
  import opened Replies
  import opened Dispatch
  import C = AtCommandParser
  import R = AtResponseParser
  import Reinjection

  // ----- Which message a response is

  lemma FindStep(messages: seq<Message>, name: string)
    requires |messages| > 0
    ensures FindMessage(messages, Some(name)) ==
            if EqualsIgnoreCase(name, MessageName(messages[0])) then Some(messages[0])
            else FindMessage(messages[1..], Some(name))
  {
  }

  /** The names of the messages differ in length or first letter, so order does not matter. */
  lemma MessageFound(e: Extension, name: string)
    ensures FindMessage(Messages(e), Some(name)) ==
            if EqualsIgnoreCase(name, "+CME ERROR") then Some(CmeErrorMessage)
            else if EqualsIgnoreCase(name, "ERROR") then Some(ErrorMessage)
            else if EqualsIgnoreCase(name, "OK") then Some(OkMessage)
            else if e == Atsample && EqualsIgnoreCase(name, "+CCID") then Some(CcidMessage)
            else None
  {
    var all := Messages(e);
    FindStep(all, name);
    FindStep(all[1..], name);
    assert all[1..][1..] == all[2..];
    FindStep(all[2..], name);
    assert all[2..][1..] == all[3..];
    if e == Atsample {
      FindStep(all[3..], name);
      assert |all[3..][1..]| == 0;
    }
  }

  lemma CcidIsPlain()
    ensures R.Plain("+CCID")
  {
    var name := "+CCID";
    forall i | 0 <= i < |name| ensures !R.Delimiter(name[i]) && R.KeywordAt(name[i..]) == None {
      assert |name[i..]| < |R.Word(R.CmeErrorWord)|;
      assert name[i..][0] == name[i] && name[i] != 'O' && name[i] != 'E';
      assert R.Word(R.OkWord)[0] == 'O' && R.Word(R.ErrorWord)[0] == 'E';
    }
  }

  lemma CcidFound(e: Extension)
    ensures FindMessage(Messages(e), Some("+CCID")) == if e == Atsample then Some(CcidMessage) else None
  {
    var name := "+CCID";
    MessageFound(e, name);
    var other := MessageName(ErrorMessage);
    assert |other| == |name| && Lower(name[0]) == '+' && Lower(other[0]) == 'e';
  }

  // ----- The SCID translation

  /** The first Atsample child answers a pending SCID; Netconf children pass it by. */
  lemma {:induction false} CcidAnswered(children: seq<Extension>, parsed: R.Response, w: World)
    requires Atsample in children && |w.pending| > 0 && Last(w.pending) == PendingScid
    requires parsed.name == Some("+CCID") && parsed.kind == R.OkKind && |parsed.args| >= 1
    ensures ResponseChildren(children, parsed, w) == Reply(Dequeue(w), ScidText(parsed.args[0]))
  {
    CcidFound(children[0]);
    if children[0] == Netconf {
      assert ResponseChild(children[0], parsed, w) == Outcome(w, false);
      assert Atsample in children[1..];
      CcidAnswered(children[1..], parsed, w);
    }
  }

  /** "+CCID: s" with its OK in the same chunk becomes exactly "^SCID: s" at the host, and
      exactly the pending SCID leaves the stack, unless the chunk is too long and is refused.
      Further arguments are ignored. */
  lemma ScidTranslated(children: seq<Extension>, before: string, args: seq<string>, after: string, w: World)
    requires Atsample in children && |w.pending| > 0 && Last(w.pending) == PendingScid
    requires R.LineEnd(before) && R.LineEnd(after) && R.PlainArgs(args)
    ensures var chunk := R.Print(before, "+CCID", args, after);
            ReceiveResponse(children, chunk, |chunk|, w) ==
            if |chunk| > 256 then Outcome(w, false)
            else Outcome(w.(pending := DropLast(w.pending), host := w.host + [Cut(ScidText(args[0]))]), true)
    ensures Cut(ScidText(args[0])) == "^SCID: " + (args[0] + "\r\nOK\r\n") <==> |args[0]| <= 114
    ensures Final(Cut(ScidText(args[0]))) <==> |args[0]| <= 114
  {
    var s := args[0];
    CcidIsPlain();
    R.RoundTrip(before, "+CCID", args, after);
    CcidAnswered(children, R.Parse(R.Print(before, "+CCID", args, after)), w);
    assert |ScidText(s)| == |s| + 13;
    assert R.Plain(s);
    ScidEndsExactly(s);
  }

  /** Every response has at least one argument, possibly empty. */
  lemma AlwaysAnArgument(text: string)
    ensures |R.Parse(text).args| >= 1
  {
  }

  // ----- Commands dropped without a result

  /** How many SCID are on top of the stack, one on the other. */
  function TopScids(pending: seq<Pending>): nat {
    if |pending| == 0 || Last(pending) != PendingScid then 0 else 1 + TopScids(DropLast(pending))
  }

  predicate NamedOk(parsed: R.Response) {
    parsed.name.Some? && EqualsIgnoreCase(parsed.name.value, "OK")
  }

  /** The pending commands that n children drop without a result. */
  function Dropped(n: nat, parsed: R.Response, pending: seq<Pending>): nat {
    if !NamedOk(parsed) then 0 else if n < TopScids(pending) then n else TopScids(pending)
  }

  lemma ChildDrops(e: Extension, parsed: R.Response, w: World)
    requires |parsed.args| >= 1
    ensures var r := ResponseChild(e, parsed, w);
            && |w.pending| - |r.world.pending| == |r.world.host| - |w.host| + Dropped(1, parsed, w.pending)
            && (r.consumed ==> Dropped(1, parsed, w.pending) == 0)
            && (r.world.pending == w.pending || (|w.pending| > 0 && r.world.pending == DropLast(w.pending)))
  {
    if parsed.name.Some? {
      MessageFound(e, parsed.name.value);
    }
    if NamedOk(parsed) {
      OkIsNoOther(parsed.name.value);
    }
  }

  lemma OkIsNoOther(name: string)
    requires EqualsIgnoreCase(name, "OK")
    ensures !EqualsIgnoreCase(name, "ERROR") && !EqualsIgnoreCase(name, "+CME ERROR")
  {
  }

  /** For any stack, the commands that leave it are those whose result is written and, when the
      response is named OK, as many of the SCID on top as there are children. */
  lemma {:induction false} ChildrenDropExactly(children: seq<Extension>, parsed: R.Response, w: World)
    requires |parsed.args| >= 1
    ensures var after := ResponseChildren(children, parsed, w).world;
            |w.pending| - |after.pending| == |after.host| - |w.host| + Dropped(|children|, parsed, w.pending)
  {
    if |children| > 0 {
      var r := ResponseChild(children[0], parsed, w);
      ChildDrops(children[0], parsed, w);
      ChildrenDropExactly(children[1..], parsed, r.world);
    }
  }

  /** A SCID on top of any stack is dropped without any result exactly when the response is an OK
      that does not carry the identifier. */
  lemma ScidDroppedExactly(children: seq<Extension>, text: string, len: nat, w: World)
    requires |w.pending| > 0 && Last(w.pending) == PendingScid
    ensures var after := ReceiveResponse(children, text, len, w).world;
            |w.pending| - |after.pending| > |after.host| - |w.host| <==>
            (len <= MAX_SMM_MESSAGE_SIZE && children != [] && NamedOk(R.Parse(text)))
  {
    AlwaysAnArgument(text);
    ChildrenDropExactly(children, R.Parse(text), w);
  }

  lemma OkSucceeds(e: Extension, w: World)
    ensures ResponseChild(e, R.Parse(OK_TEXT), w) == SucceedTop(w)
  {
    Reinjection.OkTextIsOk();
    Reinjection.OkFound(e);
  }

  lemma TwoChildren(children: seq<Extension>, parsed: R.Response, w: World)
    requires |children| == 2 && !ResponseChild(children[0], parsed, w).consumed
    ensures ResponseChildren(children, parsed, w).world
         == ResponseChild(children[1], parsed, ResponseChild(children[0], parsed, w).world).world
  {
    var rest, w1 := children[1..], ResponseChild(children[0], parsed, w).world;
    var r := ResponseChild(children[1], parsed, w1);
    assert rest[0] == children[1] && |rest[1..]| == 0;
    assert ResponseChildren(rest, parsed, w1) == if r.consumed then r else ResponseChildren(rest[1..], parsed, r.world);
    assert ResponseChildren(rest[1..], parsed, r.world) == Outcome(r.world, false);
  }

  /** A plain OK drops a lone SCID; two children also settle the CGACT below it, too early. */
  lemma PlainOkDrops(children: seq<Extension>, w: World)
    requires |children| == 2
    ensures w.pending == [PendingScid] ==>
              ReceiveResponse(children, OK_TEXT, |OK_TEXT|, w).world == w.(pending := [])
    ensures w.pending == [PendingCgact, PendingScid] ==>
              ReceiveResponse(children, OK_TEXT, |OK_TEXT|, w).world == w.(pending := [], host := w.host + [OK_TEXT])
  {
    if |w.pending| > 0 && Last(w.pending) == PendingScid {
      OkSucceeds(children[0], w);
      OkSucceeds(children[1], Dequeue(w));
      TwoChildren(children, R.Parse(OK_TEXT), w);
      ResultsAreFinal();
    }
  }

  /** With nothing pending, no response is consumed. */
  lemma {:induction false} EmptyStays(children: seq<Extension>, parsed: R.Response, w: World)
    requires w.pending == []
    ensures ResponseChildren(children, parsed, w) == Outcome(w, false)
  {
    if |children| > 0 {
      EmptyStays(children[1..], parsed, w);
    }
  }

  // ----- A serial host

  /** Truncated: the last reply was cut and its final result lost; the host waits for ever. */
  datatype Phase = Idle | AwaitInterface | AwaitCcid | AwaitModem | Truncated

  /** A text at the host: the reply to the command just received, or the result of one that was
      pending, with the step that brought it, or a text that nobody waited for. */
  datatype Entry =
    | Immediate(text: string)
    | Deferred(command: Pending, text: string, step: Step)
    | Spurious(text: string)

  /** The proxy, what the environment owes, the asynchronous commands issued so far, the host log
      with the command each text answers, and how many commands there were and how many of them
      were left to the modem. */
  datatype Serial = Serial(
    w: World, phase: Phase, issued: seq<Pending>, log: seq<Entry>, commands: nat, left: nat)

  const START := Serial(INITIAL, Idle, [], [], 0, 0)

  /** A response without a final result, not even in another case of letters. */
  predicate Unsolicited(parsed: R.Response) {
    parsed.kind == R.Urc &&
    (parsed.name.Some? ==>
       !EqualsIgnoreCase(parsed.name.value, "OK") && !EqualsIgnoreCase(parsed.name.value, "ERROR")
       && !EqualsIgnoreCase(parsed.name.value, "+CME ERROR"))
  }

  /** The identifier with its OK, or an error. */
  predicate CcidFinal(parsed: R.Response) {
    || (parsed.name == Some("+CCID") && parsed.kind == R.OkKind)
    || parsed.name == Some("ERROR") || parsed.name == Some("+CME ERROR")
  }

  /** What the environment may do: one command at a time, one answer for each request, a final
      result only for an outstanding command, and nothing too long to be looked at. */
  predicate Allowed(s: Serial, step: Step) {
    match step
    case HostCommand(_, _, _) => s.phase == Idle
    case SetupAnswer(_, _) => s.phase == AwaitInterface
    case ReleaseAnswer(_) => s.phase == AwaitInterface
    case ModemResponse(text, len) =>
      len <= MAX_SMM_MESSAGE_SIZE &&
      (|| Unsolicited(R.Parse(text))
       || (s.phase == AwaitCcid && CcidFinal(R.Parse(text)))
       || (s.phase == AwaitModem && R.Parse(text).kind != R.Urc))
    case _ => true
  }

  /** The host goes on when it has read a final result. */
  function Answered(text: string): Phase {
    if Final(text) then Idle else Truncated
  }

  function NextPhase(s: Serial, step: Step, after: World): Phase {
    match step
    case HostCommand(_, _, _) =>
      if |after.pending| > |s.w.pending| then
        if Last(after.pending) == PendingCgact then AwaitInterface else AwaitCcid
      else if |after.host| > |s.w.host| then Answered(Last(after.host))
      else AwaitModem
    case SetupAnswer(_, _) => if |after.host| > 0 then Answered(Last(after.host)) else Idle
    case ReleaseAnswer(_) => if |after.host| > 0 then Answered(Last(after.host)) else Idle
    case ModemResponse(text, _) =>
      if Unsolicited(R.Parse(text)) then s.phase
      else if s.phase == AwaitCcid && |after.host| > 0 then Answered(Last(after.host))
      else Idle
    case _ => s.phase
  }

  /** One entry for every text the step added to the host log. */
  function Entries(w: World, step: Step, after: World): seq<Entry> {
    if |after.host| <= |w.host| then []
    else
      var added := after.host[|w.host|..];
      seq(|added|, i requires 0 <= i < |added| =>
        if step.HostCommand? then Immediate(added[i])
        else if |w.pending| > 0 then Deferred(Last(w.pending), added[i], step)
        else Spurious(added[i]))
  }

  /** The command neither got a reply nor became pending. */
  predicate LeftToModem(w: World, step: Step, after: World) {
    step.HostCommand? && after.host == w.host && after.pending == w.pending
  }

  function Next(k: Config, s: Serial, step: Step): Serial {
    Follow(s, step, Protocol.Apply(k, s.w, step))
  }

  function Follow(s: Serial, step: Step, after: World): Serial {
    Serial(after, NextPhase(s, step, after),
           if |after.pending| > |s.w.pending| then s.issued + after.pending[|s.w.pending|..] else s.issued,
           s.log + Entries(s.w, step, after),
           s.commands + (if step.HostCommand? then 1 else 0),
           s.left + (if LeftToModem(s.w, step, after) then 1 else 0))
  }

  function Texts(log: seq<Entry>): seq<string> {
    seq(|log|, i requires 0 <= i < |log| => log[i].text)
  }

  /** The pending commands that got their result, in order. */
  function Settlements(log: seq<Entry>): seq<Pending> {
    if |log| == 0 then []
    else if Last(log).Deferred? then Settlements(DropLast(log)) + [Last(log).command]
    else Settlements(DropLast(log))
  }

  /** The replies to commands that were answered at once. */
  function Immediates(log: seq<Entry>): nat {
    if |log| == 0 then 0 else Immediates(DropLast(log)) + if Last(log).Immediate? then 1 else 0
  }

  /** A text that answers a command; a cut identifier has no OK. */
  ghost predicate Answer(p: Pending, text: string) {
    || text == ERROR_TEXT
    || (p == PendingCgact && text == OK_TEXT)
    || (p == PendingScid && exists ccid :: text == Cut(ScidText(ccid)) && (Final(text) <==> |ccid| <= 114))
  }

  /** The result that a step brings a pending command: a CGACT has OK exactly when the interface
      reports success, a SCID its identifier exactly when the modem sends one. */
  function ResultOf(p: Pending, step: Step): Option<string> {
    match step
    case SetupAnswer(success, _) => CgactResult(p, success)
    case ReleaseAnswer(success) => CgactResult(p, success)
    case ModemResponse(text, _) => if p == PendingScid then Some(ScidResult(R.Parse(text))) else None
    case _ => None
  }

  function CgactResult(p: Pending, success: bool): Option<string> {
    if p != PendingCgact then None else if success then Some("\r\nOK\r\n") else Some("\r\nERROR\r\n")
  }

  function ScidResult(parsed: R.Response): string {
    if parsed.name == Some("+CCID") && |parsed.args| > 0 then Cut("^SCID: " + (parsed.args[0] + "\r\nOK\r\n"))
    else "\r\nERROR\r\n"
  }

  /** What the log says of one text. */
  ghost predicate EntryOk(e: Entry) {
    !e.Spurious? && (e.Deferred? ==> ResultOf(e.command, e.step) == Some(e.text))
  }

  /** At most one command is pending and the phase says which; the log is the whole host log; the
      commands issued are those with a result in the log, in order, then the pending one; every
      other command has exactly one reply in the log or was left to the modem; and every text but
      the last of a truncated run carries a final result. */
  ghost predicate Sound(s: Serial) {
    && s.w.pending == (match s.phase
         case AwaitInterface => [PendingCgact]
         case AwaitCcid => [PendingScid]
         case _ => [])
    && Texts(s.log) == s.w.host
    && s.issued == Settlements(s.log) + s.w.pending
    && s.commands == Immediates(s.log) + |s.issued| + s.left
    && (forall i :: 0 <= i < |s.log| ==> EntryOk(s.log[i]))
    && (forall i :: 0 <= i < |s.log| - 1 ==> Final(s.log[i].text))
    && (s.phase == Truncated <==> |s.log| > 0 && !Final(Last(s.log).text))
  }

  /** What one allowed step does to stack and host log: only a command is answered at once, and
      while one waits nothing is written but its result. */
  ghost predicate Orderly(w: World, step: Step, after: World) {
    || (after.pending == w.pending && (|w.pending| > 0 || !step.HostCommand? ==> after.host == w.host)
        && w.host <= after.host && |after.host| <= |w.host| + 1)
    || (w.pending == [] && |after.pending| == 1 && after.host == w.host)
    || (|w.pending| == 1 && after.pending == [] && |after.host| == |w.host| + 1 && w.host <= after.host
        && ResultOf(w.pending[0], step) == Some(Last(after.host)))
  }

  lemma {:induction false} UnsolicitedIgnored(children: seq<Extension>, parsed: R.Response, w: World)
    requires Unsolicited(parsed)
    ensures ResponseChildren(children, parsed, w) == Outcome(w, false)
  {
    if |children| > 0 {
      if parsed.name.Some? {
        MessageFound(children[0], parsed.name.value);
      }
      UnsolicitedIgnored(children[1..], parsed, w);
    }
  }

  lemma CcidFinalAnswers(children: seq<Extension>, text: string, w: World)
    requires Atsample in children && w.pending == [PendingScid] && CcidFinal(R.Parse(text))
    ensures var after := ProcessResponse(children, text, w).world;
            after.pending == [] && |after.host| == |w.host| + 1 && w.host <= after.host
            && Last(after.host) == ScidResult(R.Parse(text))
  {
    var parsed := R.Parse(text);
    AlwaysAnArgument(text);
    ResultsAreFinal();
    if parsed.name == Some("+CCID") && parsed.kind == R.OkKind {
      CcidAnswered(children, parsed, w);
    } else {
      MessageFound(children[0], parsed.name.value);
      ErrorNamesMatch();
    }
  }

  lemma ErrorNamesMatch()
    ensures EqualsIgnoreCase("ERROR", "ERROR") && EqualsIgnoreCase("+CME ERROR", "+CME ERROR")
    ensures !EqualsIgnoreCase("ERROR", "+CME ERROR")
  {
  }

  lemma AnswerSettles(w: World, success: bool)
    requires w.pending == [PendingCgact]
    ensures var after := AnswerTop(w, success);
            after.pending == [] && |after.host| == |w.host| + 1 && w.host <= after.host
            && CgactResult(PendingCgact, success) == Some(Last(after.host))
  {
    ResultsAreFinal();
  }

  // ----- One step

  lemma SettlementsSnoc(log: seq<Entry>, e: Entry)
    ensures Settlements(log + [e]) == if e.Deferred? then Settlements(log) + [e.command] else Settlements(log)
    ensures Texts(log + [e]) == Texts(log) + [e.text]
    ensures Immediates(log + [e]) == Immediates(log) + if e.Immediate? then 1 else 0
  {
    Unsnoc(log, e);
  }

  /** One more text on a log whose texts all carry a result. */
  lemma LogGrows(log: seq<Entry>, e: Entry)
    requires (forall i :: 0 <= i < |log| ==> EntryOk(log[i]) && Final(log[i].text)) && EntryOk(e)
    ensures forall i :: 0 <= i < |log + [e]| ==> EntryOk((log + [e])[i])
    ensures forall i :: 0 <= i < |log + [e]| - 1 ==> Final((log + [e])[i].text)
    ensures Last(log + [e]) == e
  {
  }

  lemma AllFinal(s: Serial)
    requires Sound(s) && s.phase != Truncated
    ensures forall i :: 0 <= i < |s.log| ==> EntryOk(s.log[i]) && Final(s.log[i].text)
  {
    assert forall i :: 0 <= i < |s.log| ==> EntryOk(s.log[i]);
    if |s.log| > 0 {
      assert Final(Last(s.log).text);
    }
  }

  /** An immediate reply extends the log. */
  lemma RepliedSound(s: Serial, after: World, text: string)
    requires Sound(s) && s.phase == Idle && after.pending == [] && after.host == s.w.host + [text]
    ensures Sound(Serial(after, Answered(text), s.issued, s.log + [Immediate(text)], s.commands + 1, s.left))
  {
    SettlementsSnoc(s.log, Immediate(text));
    AllFinal(s);
    LogGrows(s.log, Immediate(text));
  }

  /** The result of the pending command extends the log. */
  lemma SettledSound(s: Serial, after: World, p: Pending, text: string, step: Step)
    requires Sound(s) && s.w.pending == [p] && after.pending == [] && after.host == s.w.host + [text]
    requires ResultOf(p, step) == Some(text)
    ensures Sound(Serial(after, Answered(text), s.issued, s.log + [Deferred(p, text, step)], s.commands, s.left))
  {
    SettlementsSnoc(s.log, Deferred(p, text, step));
    Associates(Settlements(s.log), [p], []);
    assert (Settlements(s.log) + [p]) + [] == Settlements(s.log) + [p];
    AllFinal(s);
    LogGrows(s.log, Deferred(p, text, step));
  }

  lemma OneEntry(w: World, step: Step, after: World, text: string)
    requires after.host == w.host + [text]
    ensures Entries(w, step, after) ==
            [if step.HostCommand? then Immediate(text)
             else if |w.pending| > 0 then Deferred(Last(w.pending), text, step)
             else Spurious(text)]
  {
    assert after.host[|w.host|..] == [text];
  }

  lemma LastAdded(w: World, after: World)
    requires |after.host| == |w.host| + 1 && w.host <= after.host
    ensures after.host == w.host + [Last(after.host)]
  {
  }

  /** A command that was issued, answered at once, or left to the modem. */
  lemma IssuedSound(s: Serial, step: Step, after: World)
    requires step.HostCommand? && Sound(s) && s.phase == Idle && AsyncRequest(s.w, after)
    ensures Sound(Follow(s, step, after)) && Orderly(s.w, step, after)
  {
    assert after.pending == [Last(after.pending)] && after.pending[0..] == after.pending;
    assert s.log + [] == s.log && Settlements(s.log) + [] == Settlements(s.log);
  }

  lemma AnsweredSound(s: Serial, step: Step, after: World)
    requires step.HostCommand? && Sound(s) && s.phase == Idle && HostReply(s.w, after)
    ensures Sound(Follow(s, step, after)) && Orderly(s.w, step, after)
  {
    LastAdded(s.w, after);
    OneEntry(s.w, step, after, Last(after.host));
    RepliedSound(s, after, Last(after.host));
  }

  lemma LeftSound(s: Serial, step: Step, after: World)
    requires step.HostCommand? && Sound(s) && s.phase == Idle
    requires after.pending == s.w.pending && after.host == s.w.host
    ensures Sound(Follow(s, step, after)) && Orderly(s.w, step, after)
  {
    assert s.log + [] == s.log;
  }

  lemma CommandSound(k: Config, s: Serial, step: Step)
    requires step.HostCommand? && Sound(s) && Allowed(s, step)
    ensures Sound(Next(k, s, step)) && Orderly(s.w, step, Protocol.Apply(k, s.w, step))
  {
    CommandReacts(k.commands, step.text, step.len, s.w, step.env);
    var after := Protocol.Apply(k, s.w, step);
    if |after.pending| == 1 {
      IssuedSound(s, step, after);
    } else if |after.host| > |s.w.host| {
      AnsweredSound(s, step, after);
    } else {
      LeftSound(s, step, after);
    }
  }

  lemma ResponseOrderly(k: Config, s: Serial, step: Step)
    requires (s.phase == AwaitCcid ==> Atsample in k.responses) && step.ModemResponse? && Sound(s) && Allowed(s, step)
    ensures var after := Protocol.Apply(k, s.w, step);
            if Unsolicited(R.Parse(step.text)) || s.phase == AwaitModem then after == s.w
            else s.phase == AwaitCcid && after.pending == [] && |after.host| == |s.w.host| + 1
                 && s.w.host <= after.host && ResultOf(PendingScid, step) == Some(Last(after.host))
  {
    if Unsolicited(R.Parse(step.text)) {
      UnsolicitedIgnored(k.responses, R.Parse(step.text), s.w);
    } else if s.phase == AwaitCcid {
      CcidFinalAnswers(k.responses, step.text, s.w);
    } else {
      EmptyStays(k.responses, R.Parse(step.text), s.w);
    }
  }

  /** The pending command gets its result. */
  lemma PendingSound(s: Serial, step: Step, after: World, p: Pending)
    requires Sound(s) && s.w.pending == [p] && !step.HostCommand?
    requires after.pending == [] && |after.host| == |s.w.host| + 1 && s.w.host <= after.host
    requires ResultOf(p, step) == Some(Last(after.host)) && NextPhase(s, step, after) == Answered(Last(after.host))
    ensures Sound(Follow(s, step, after)) && Orderly(s.w, step, after)
  {
    LastAdded(s.w, after);
    OneEntry(s.w, step, after, Last(after.host));
    SettledSound(s, after, p, Last(after.host), step);
  }

  /** Nothing is written, and the phase stays, or the modem has answered a forwarded command. */
  lemma QuietSound(s: Serial, step: Step, after: World)
    requires Sound(s) && !step.HostCommand? && after.pending == s.w.pending && after.host == s.w.host
    requires NextPhase(s, step, after) == s.phase || (s.phase == AwaitModem && NextPhase(s, step, after) == Idle)
    ensures Sound(Follow(s, step, after)) && Orderly(s.w, step, after)
  {
    assert s.log + [] == s.log;
  }

  /** Where there is the command of an extension there is its response. */
  predicate Paired(k: Config) {
    Atsample in k.commands ==> Atsample in k.responses
  }

  /** Only the Atsample extension issues a SCID. */
  predicate Issues(k: Config, s: Serial) {
    s.phase == AwaitCcid ==> Atsample in k.commands
  }

  lemma {:induction false} TakenIsRegistered(children: seq<Extension>, parsed: C.Command)
    ensures Taken(children, parsed) == Some(Scid) ==> Atsample in children
  {
    if |children| > 0 {
      FoundIsRegistered(Commands(children[0]), parsed.name);
      TakenIsRegistered(children[1..], parsed);
    }
  }

  lemma {:induction false} FoundIsRegistered(commands: seq<Command>, name: string)
    ensures FindCommand(commands, name).Some? ==> FindCommand(commands, name).value in commands
  {
    if |commands| > 0 {
      FoundIsRegistered(commands[1..], name);
    }
  }

  /** No command but SCID adds a SCID to the stack. */
  predicate AddsNoScid(w: World, after: World) {
    |after.pending| > |w.pending| ==> Last(after.pending) != PendingScid
  }

  lemma OnlyScidIssues(c: Command, parsed: C.Command, w: World, env: Env)
    requires c != Scid
    ensures AddsNoScid(w, Execute(c, parsed, w, env).world)
  {
    match parsed.kind
    case Query => QueryAddsNoScid(c, w, env);
    case Write => WriteAddsNoScid(c, parsed.args, w, env);
    case _ =>
  }

  lemma QueryAddsNoScid(c: Command, w: World, env: Env)
    requires c != Scid
    ensures AddsNoScid(w, ExecuteAsQuery(c, w, env).world)
  {
  }

  lemma WriteAddsNoScid(c: Command, args: seq<string>, w: World, env: Env)
    ensures AddsNoScid(w, ExecuteAsWrite(c, args, w, env).world)
  {
  }

  lemma CommandIssues(k: Config, s: Serial, step: Step)
    requires step.HostCommand? && Sound(s) && Allowed(s, step)
    ensures Issues(k, Next(k, s, step))
  {
    var after := Protocol.Apply(k, s.w, step);
    if Next(k, s, step).phase == AwaitCcid {
      CommandSound(k, s, step);
      assert after.pending == [PendingScid];
      ReceiveExecutes(k.commands, step.text, step.len, s.w, step.env);
      var taken := TakenFrom(k.commands, step.text, step.len);
      if taken.Some? {
        if taken.value.0 != Scid {
          OnlyScidIssues(taken.value.0, taken.value.1, s.w, step.env);
        }
        TakenIsRegistered(k.commands, taken.value.1);
      }
    }
  }

  lemma ResponseSound(k: Config, s: Serial, step: Step)
    requires step.ModemResponse? && Paired(k) && Sound(s) && Issues(k, s) && Allowed(s, step)
    ensures Sound(Next(k, s, step)) && Orderly(s.w, step, Protocol.Apply(k, s.w, step))
    ensures Issues(k, Next(k, s, step))
  {
    var after := Protocol.Apply(k, s.w, step);
    ResponseOrderly(k, s, step);
    if Unsolicited(R.Parse(step.text)) || s.phase == AwaitModem {
      QuietSound(s, step, after);
    } else {
      PendingSound(s, step, after, PendingScid);
    }
  }

  lemma InterfaceSound(s: Serial, step: Step, w1: World, success: bool)
    requires (step.SetupAnswer? || step.ReleaseAnswer?) && Sound(s) && s.phase == AwaitInterface
    requires w1.pending == s.w.pending && w1.host == s.w.host
    requires success == step.success
    ensures var after := AnswerTop(w1, success);
            Sound(Follow(s, step, after)) && Orderly(s.w, step, after) && Follow(s, step, after).phase != AwaitCcid
  {
    AnswerSettles(w1, success);
    PendingSound(s, step, AnswerTop(w1, success), PendingCgact);
  }

  /** Every allowed step keeps the discipline: nothing is ever stacked on a pending command, it
      leaves the stack only with its one result, and until then nothing reaches the host. */
  lemma StepSound(k: Config, s: Serial, step: Step)
    requires Paired(k) && Sound(s) && Issues(k, s) && Allowed(s, step)
    ensures Legal(s.w, step) && Issues(k, Next(k, s, step))
    ensures Sound(Next(k, s, step)) && Orderly(s.w, step, Protocol.Apply(k, s.w, step))
  {
    match step
    case HostCommand(_, _, _) =>
      CommandSound(k, s, step);
      CommandIssues(k, s, step);
    case ModemResponse(_, _) => ResponseSound(k, s, step);
    case SetupAnswer(success, call) =>
      InterfaceSound(s, step, if success then s.w.(calls := Update(s.w.calls, call)) else s.w, success);
    case ReleaseAnswer(success) => InterfaceSound(s, step, s.w, success);
    case _ => QuietSound(s, step, Protocol.Apply(k, s.w, step));
  }

  // ----- Runs

  function RunSerial(k: Config, steps: seq<Step>): Serial {
    if |steps| == 0 then START else Next(k, RunSerial(k, DropLast(steps)), Last(steps))
  }

  ghost predicate AllowedRun(k: Config, steps: seq<Step>) {
    |steps| == 0 || (AllowedRun(k, DropLast(steps)) && Allowed(RunSerial(k, DropLast(steps)), Last(steps)))
  }

  lemma {:induction false} RunSound(k: Config, steps: seq<Step>)
    requires Paired(k) && AllowedRun(k, steps)
    ensures Sound(RunSerial(k, steps)) && Issues(k, RunSerial(k, steps))
  {
    if |steps| > 0 {
      RunSound(k, DropLast(steps));
      StepSound(k, RunSerial(k, DropLast(steps)), Last(steps));
    }
  }

  /** Over every serial run: at most one command is pending, so enqueueing never finds another
      and the stack is a queue. The host log is exactly one reply for each command answered at once
      and, in the order they were issued, one result for each that was pending and is not any more,
      complete but for a cut one that ends the run; every other command was left to the modem; when
      the host is idle nothing is owed. */
  lemma SerialRun(k: Config, steps: seq<Step>)
    requires Paired(k) && AllowedRun(k, steps)
    ensures var s := RunSerial(k, steps);
            && |s.w.pending| <= 1 && Texts(s.log) == s.w.host
            && Settlements(s.log) + s.w.pending == s.issued
            && s.commands == Immediates(s.log) + |s.issued| + s.left
            && (forall i :: 0 <= i < |s.log| ==> EntryOk(s.log[i]))
            && (forall i :: 0 <= i < |s.log| - 1 ==> Final(s.log[i].text))
            && (s.phase == Idle ==> Settlements(s.log) == s.issued && (|s.log| > 0 ==> Final(Last(s.log).text)))
  {
    RunSound(k, steps);
    var s := RunSerial(k, steps);
    if s.phase == Idle {
      assert Settlements(s.log) + [] == Settlements(s.log);
    }
  }

  lemma {:induction false} RunSerialWorld(k: Config, steps: seq<Step>)
    ensures RunSerial(k, steps).w == Run(k, INITIAL, steps)
  {
    if |steps| > 0 {
      RunSerialWorld(k, DropLast(steps));
    }
  }

  /** A command leaves the host waiting for ever exactly when it is answered at once and its
      finished reply has 128 characters or more, over every run whose reports are lines. */
  lemma TruncatedExactly(k: Config, steps: seq<Step>, text: string, len: nat, env: Env)
    requires Paired(k) && AllowedRun(k, steps) && RunSerial(k, steps).phase == Idle
    requires (forall s <- steps :: OneLineStep(s)) && '\r' !in env.registration
    ensures var s := RunSerial(k, steps);
            var r := ReceiveCommand(k.commands, text, len, s.w, env);
            var report := ReportTo(k, s.w, text, len, env);
            Next(k, s, HostCommand(text, len, env)).phase == Truncated <==>
            r.consumed && HostReply(s.w, r.world) && report.Some? && |report.value| >= MSG_BUF_SIZE
  {
    var s := RunSerial(k, steps);
    RunSerialWorld(k, steps);
    CommandReacts(k.commands, text, len, s.w, env);
    ReplyEndsExactly(k, INITIAL, steps, text, len, env);
  }
}
