/** The ledger of AT^SCID over every run: whatever was asked is pending, was answered, or was
    dropped. */
module ScidLedger {
  import opened Text
  import opened Limits
  import opened DataCalls
  import opened World
  import opened Protocol
  import opened Replies
  import opened SerialHost
  import R = AtResponseParser

  function CountScid(pending: seq<Pending>): nat {
    if |pending| == 0 then 0
    else CountScid(DropLast(pending)) + (if Last(pending) == PendingScid then 1 else 0)
  }

  lemma {:induction false} CountBoth(pending: seq<Pending>)
    ensures CountCgact(pending) + CountScid(pending) == |pending|
  {
    if |pending| > 0 {
      CountBoth(DropLast(pending));
    }
  }

  // ----- One step

  function Asked(w: World, s: Step, after: World): nat {
    if s.HostCommand? && CountScid(after.pending) > CountScid(w.pending) then 1 else 0
  }

  /** What a step other than a command wrote to the host without settling a CGACT. */
  function Given(w: World, s: Step, after: World): seq<string> {
    if !s.HostCommand? && |after.host| > |w.host| && CountCgact(after.pending) == CountCgact(w.pending) then
      after.host[|w.host|..]
    else []
  }

  /** The SCID that an OK without identifier takes off the top of the stack. */
  function Lost(k: Config, w: World, s: Step): nat {
    if s.ModemResponse? && s.len <= MAX_SMM_MESSAGE_SIZE then Dropped(|k.responses|, R.Parse(s.text), w.pending) else 0
  }

  /** The balance of one step. */
  ghost predicate Balances(k: Config, w: World, s: Step, after: World) {
    && CountScid(after.pending) + |Given(w, s, after)| + Lost(k, w, s) == CountScid(w.pending) + Asked(w, s, after)
    && forall text <- Given(w, s, after) :: Answer(PendingScid, text)
  }

  /** A text that settles no CGACT answers a SCID. */
  ghost predicate Gives(w: World, after: World) {
    |after.host| > |w.host| && CountCgact(after.pending) == CountCgact(w.pending) ==>
      Answer(PendingScid, Last(after.host))
  }

  lemma FailGives(w: World)
    ensures Gives(w, FailTop(w).world)
  {
    ResultsAreFinal();
  }

  lemma ScidTextAnswers(ccid: string)
    requires '\r' !in ccid
    ensures Answer(PendingScid, Cut(ScidText(ccid)))
  {
    ScidEndsExactly(ccid);
  }

  lemma SucceedGives(w: World)
    ensures Gives(w, SucceedTop(w).world)
  {
  }

  lemma TextGives(w: World, dequeued: World, ccid: string)
    requires '\r' !in ccid
    ensures Gives(w, Say(dequeued, ScidText(ccid)))
  {
    ScidTextAnswers(ccid);
  }

  lemma IdentifierGives(w: World, ccid: string)
    requires '\r' !in ccid
    ensures Gives(w, SucceedTopWith(ccid, w).world)
  {
    if |w.pending| > 0 && Last(w.pending) == PendingScid {
      TextGives(w, Dequeue(w), ccid);
    } else {
      SucceedGives(w);
    }
  }

  lemma MessageGives(m: Message, parsed: R.Response, w: World)
    requires |parsed.args| >= 1 && '\r' !in parsed.args[0]
    ensures Gives(w, ExecuteMessage(m, parsed, w).world)
  {
    match m
    case CmeErrorMessage => FailGives(w);
    case ErrorMessage => FailGives(w);
    case OkMessage => SucceedGives(w);
    case CcidMessage => IdentifierGives(w, parsed.args[0]);
  }

  lemma ChildGives(e: Extension, parsed: R.Response, w: World)
    requires |parsed.args| >= 1 && '\r' !in parsed.args[0]
    ensures Gives(w, ResponseChild(e, parsed, w).world)
  {
    var m := FindMessage(Messages(e), parsed.name);
    if m.Some? {
      MessageGives(m.value, parsed, w);
    }
  }

  lemma {:induction false} ChildrenGive(children: seq<Extension>, parsed: R.Response, w: World)
    requires |parsed.args| >= 1 && '\r' !in parsed.args[0]
    ensures Gives(w, ResponseChildren(children, parsed, w).world)
  {
    if |children| > 0 {
      ChildGives(children[0], parsed, w);
      ResponseChildSettles(children[0], parsed, w);
      ResponseChildAnswers(children[0], parsed, w);
      ChildrenGive(children[1..], parsed, ResponseChild(children[0], parsed, w).world);
    }
  }

  lemma OneText(w: World, after: World)
    requires |after.host| == |w.host| + 1
    ensures after.host[|w.host|..] == [Last(after.host)]
  {
  }

  lemma ResponseBalances(k: Config, w: World, s: Step)
    requires s.ModemResponse?
    ensures Balances(k, w, s, Protocol.Apply(k, w, s))
  {
    if s.len <= MAX_SMM_MESSAGE_SIZE {
      var parsed := R.Parse(s.text);
      var r := ResponseChildren(k.responses, parsed, w);
      AlwaysAnArgument(s.text);
      R.ArgsUndeleted(s.text);
      assert Undeleted(parsed.args[0]) && Deleted('\r');
      ResponseAnswers(k.responses, s.text, s.len, w);
      ResponseSettles(k.responses, parsed, w);
      ChildrenDropExactly(k.responses, parsed, w);
      ChildrenGive(k.responses, parsed, w);
      CountBoth(w.pending);
      CountBoth(r.world.pending);
      if r.consumed {
        OneText(w, r.world);
      }
    }
  }

  lemma CommandBalances(k: Config, w: World, s: Step)
    requires s.HostCommand?
    ensures Balances(k, w, s, Protocol.Apply(k, w, s))
  {
    CommandReacts(k.commands, s.text, s.len, w, s.env);
    var after := Protocol.Apply(k, w, s);
    if |after.pending| > |w.pending| {
      assert DropLast(after.pending) == w.pending;
    }
  }

  lemma AnswerBalances(k: Config, w: World, w1: World, s: Step, success: bool)
    requires s.SetupAnswer? || s.ReleaseAnswer?
    requires AnswerOk(w, success) && w1.pending == w.pending && w1.host == w.host
    ensures Balances(k, w, s, AnswerTop(w1, success))
  {
    ResultsAreFinal();
    var after := AnswerTop(w1, success);
    if |w.pending| > 0 {
      OneText(w, after);
    }
  }

  lemma StepBalances(k: Config, w: World, s: Step)
    requires Legal(w, s)
    ensures Balances(k, w, s, Protocol.Apply(k, w, s))
  {
    match s
    case HostCommand(_, _, _) => CommandBalances(k, w, s);
    case ModemResponse(_, _) => ResponseBalances(k, w, s);
    case SetupAnswer(success, call) =>
      AnswerBalances(k, w, if success then w.(calls := Update(w.calls, call)) else w, s, success);
    case ReleaseAnswer(success) => AnswerBalances(k, w, w, s, success);
    case _ =>
  }

  // ----- Runs

  function AllAsked(k: Config, w: World, steps: seq<Step>): nat {
    if |steps| == 0 then 0
    else
      var before := Run(k, w, DropLast(steps));
      AllAsked(k, w, DropLast(steps)) + Asked(before, Last(steps), Protocol.Apply(k, before, Last(steps)))
  }

  function AllGiven(k: Config, w: World, steps: seq<Step>): seq<string> {
    if |steps| == 0 then []
    else
      var before := Run(k, w, DropLast(steps));
      AllGiven(k, w, DropLast(steps)) + Given(before, Last(steps), Protocol.Apply(k, before, Last(steps)))
  }

  function AllLost(k: Config, w: World, steps: seq<Step>): nat {
    if |steps| == 0 then 0
    else AllLost(k, w, DropLast(steps)) + Lost(k, Run(k, w, DropLast(steps)), Last(steps))
  }

  /** Over any run, every SCID asked is still pending, or has been answered by exactly one text to
      the host, an ERROR or an identifier, or was dropped by an OK that carries none. */
  lemma {:induction false} RunScidLedger(k: Config, w: World, steps: seq<Step>)
    requires LegalRun(k, w, steps)
    ensures CountScid(w.pending) + AllAsked(k, w, steps)
         == CountScid(Run(k, w, steps).pending) + |AllGiven(k, w, steps)| + AllLost(k, w, steps)
    ensures forall text <- AllGiven(k, w, steps) :: Answer(PendingScid, text)
  {
    if |steps| > 0 {
      RunScidLedger(k, w, DropLast(steps));
      StepBalances(k, Run(k, w, DropLast(steps)), Last(steps));
    }
  }
}
