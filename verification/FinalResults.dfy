/** Which result settles a pending command, for every response and every stack
    (core/src/AtResponseParser.cpp, extensions/atsample/src/AtsampleAtCommandParser.cpp). */
module FinalResults {
  import opened Text
  import opened World
  import R = AtResponseParser
  import opened SerialHost
  import ModemResults

  predicate Named(parsed: R.Response, name: string) {
    parsed.name.Some? && EqualsIgnoreCase(parsed.name.value, name)
  }

  predicate NamedError(parsed: R.Response) {
    Named(parsed, "ERROR") || Named(parsed, "+CME ERROR")
  }

  /** An identifier that comes with a final result. */
  predicate NamedCcid(parsed: R.Response) {
    Named(parsed, "+CCID") && (parsed.kind == R.OkKind || parsed.kind == R.ErrorKind)
  }

  /** The top entry leaves the stack and the host reads this text. */
  function Settled(w: World, text: string): Outcome
    requires |w.pending| > 0
  {
    Outcome(w.(pending := DropLast(w.pending), host := w.host + [text]), true)
  }

  lemma NamesDiffer(name: string)
    ensures !(EqualsIgnoreCase(name, "OK") && EqualsIgnoreCase(name, "ERROR"))
    ensures !(EqualsIgnoreCase(name, "OK") && EqualsIgnoreCase(name, "+CME ERROR"))
    ensures !(EqualsIgnoreCase(name, "OK") && EqualsIgnoreCase(name, "+CCID"))
    ensures !(EqualsIgnoreCase(name, "+CCID") && EqualsIgnoreCase(name, "+CME ERROR"))
    ensures !(EqualsIgnoreCase(name, "+CCID") && EqualsIgnoreCase(name, "ERROR"))
  {
    var ccid, error := "+CCID", "ERROR";
    assert Lower(ccid[0]) == '+' && Lower(error[0]) == 'e';
  }

  // ----- One child

  lemma FailSettles(w: World)
    requires |w.pending| > 0
    ensures FailTop(w) == Settled(w, "\r\nERROR\r\n")
  {
  }

  lemma SucceedSettles(w: World, ccid: string)
    requires |w.pending| > 0 && Last(w.pending) == PendingCgact
    ensures SucceedTop(w) == Settled(w, "\r\nOK\r\n") && SucceedTopWith(ccid, w) == Settled(w, "\r\nOK\r\n")
  {
  }

  /** A child and an AT+CGACT on top. */
  lemma ChildSettlesCgact(e: Extension, parsed: R.Response, w: World)
    requires |w.pending| > 0 && Last(w.pending) == PendingCgact && |parsed.args| >= 1
    ensures ResponseChild(e, parsed, w) ==
            if NamedError(parsed) then Settled(w, "\r\nERROR\r\n")
            else if Named(parsed, "OK") || (e == Atsample && NamedCcid(parsed)) then Settled(w, "\r\nOK\r\n")
            else Outcome(w, false)
  {
    FailSettles(w);
    SucceedSettles(w, parsed.args[0]);
    if parsed.name.Some? {
      MessageFound(e, parsed.name.value);
      NamesDiffer(parsed.name.value);
    }
  }

  /** A child and an AT^SCID on top, for any response but OK. */
  lemma ChildSettlesScid(e: Extension, parsed: R.Response, w: World)
    requires |w.pending| > 0 && Last(w.pending) == PendingScid && |parsed.args| >= 1 && !Named(parsed, "OK")
    ensures ResponseChild(e, parsed, w) ==
            if NamedError(parsed) then Settled(w, "\r\nERROR\r\n")
            else if e == Atsample && NamedCcid(parsed) then Settled(w, Cut("^SCID: " + (parsed.args[0] + "\r\nOK\r\n")))
            else Outcome(w, false)
  {
    FailSettles(w);
    if parsed.name.Some? {
      MessageFound(e, parsed.name.value);
      NamesDiffer(parsed.name.value);
    }
  }

  // ----- All children

  lemma {:induction false} ChildrenSettleCgact(children: seq<Extension>, parsed: R.Response, w: World)
    requires |w.pending| > 0 && Last(w.pending) == PendingCgact && |parsed.args| >= 1
    ensures ResponseChildren(children, parsed, w) ==
            if children != [] && NamedError(parsed) then Settled(w, "\r\nERROR\r\n")
            else if (children != [] && Named(parsed, "OK")) || (Atsample in children && NamedCcid(parsed)) then
              Settled(w, "\r\nOK\r\n")
            else Outcome(w, false)
  {
    if |children| > 0 {
      ChildSettlesCgact(children[0], parsed, w);
      ChildrenSettleCgact(children[1..], parsed, w);
      assert Atsample in children <==> children[0] == Atsample || Atsample in children[1..];
    }
  }

  lemma {:induction false} ChildrenSettleScid(children: seq<Extension>, parsed: R.Response, w: World)
    requires |w.pending| > 0 && Last(w.pending) == PendingScid && |parsed.args| >= 1 && !Named(parsed, "OK")
    ensures ResponseChildren(children, parsed, w) ==
            if children != [] && NamedError(parsed) then Settled(w, "\r\nERROR\r\n")
            else if Atsample in children && NamedCcid(parsed) then
              Settled(w, Cut("^SCID: " + (parsed.args[0] + "\r\nOK\r\n")))
            else Outcome(w, false)
  {
    if |children| > 0 {
      ChildSettlesScid(children[0], parsed, w);
      ChildrenSettleScid(children[1..], parsed, w);
      assert Atsample in children <==> children[0] == Atsample || Atsample in children[1..];
    }
  }

  /** With an AT+CGACT on top of any stack: an error name in any case gives exactly ERROR, OK gives
      exactly OK, an identifier with its result counts as OK, and anything else changes nothing. */
  lemma CgactSettledExactly(children: seq<Extension>, text: string, len: nat, w: World)
    requires |w.pending| > 0 && Last(w.pending) == PendingCgact
    ensures var parsed := R.Parse(text);
            ReceiveResponse(children, text, len, w) ==
            if len > 256 || children == [] then Outcome(w, false)
            else if NamedError(parsed) then Settled(w, "\r\nERROR\r\n")
            else if Named(parsed, "OK") || (Atsample in children && NamedCcid(parsed)) then Settled(w, "\r\nOK\r\n")
            else Outcome(w, false)
  {
    AlwaysAnArgument(text);
    ChildrenSettleCgact(children, R.Parse(text), w);
  }

  /** The same with an AT^SCID on top, for any response but OK. */
  lemma ScidSettledExactly(children: seq<Extension>, text: string, len: nat, w: World)
    requires |w.pending| > 0 && Last(w.pending) == PendingScid && !Named(R.Parse(text), "OK")
    ensures var parsed := R.Parse(text);
            ReceiveResponse(children, text, len, w) ==
            if len > 256 || children == [] then Outcome(w, false)
            else if NamedError(parsed) then Settled(w, "\r\nERROR\r\n")
            else if Atsample in children && NamedCcid(parsed) then
              Settled(w, Cut("^SCID: " + (parsed.args[0] + "\r\nOK\r\n")))
            else Outcome(w, false)
  {
    AlwaysAnArgument(text);
    ChildrenSettleScid(children, R.Parse(text), w);
  }

  // ----- From text to text

  lemma ErrorNameSettles(children: seq<Extension>, text: string, name: string, w: World)
    requires |w.pending| > 0 && children != [] && |text| <= 256
    requires R.Parse(text).name == Some(name) && (name == "ERROR" || name == "+CME ERROR")
    ensures ReceiveResponse(children, text, |text|, w) == Settled(w, "\r\nERROR\r\n")
  {
    ErrorNamesMatch();
    NamesDiffer(name);
    if Last(w.pending) == PendingCgact {
      CgactSettledExactly(children, text, |text|, w);
    } else {
      ScidSettledExactly(children, text, |text|, w);
    }
  }

  /** ERROR from the modem, between any line ends: whatever is on top leaves with exactly ERROR. */
  lemma ErrorSettles(children: seq<Extension>, before: string, after: string, w: World)
    requires |w.pending| > 0 && children != [] && R.LineEnd(before) && R.LineEnd(after)
    ensures var text := before + ("ERROR" + after);
            |text| <= 256 ==> ReceiveResponse(children, text, |text|, w) == Settled(w, "\r\nERROR\r\n")
  {
    ModemResults.ErrorParses(before, after);
    if |before + ("ERROR" + after)| <= 256 {
      ErrorNameSettles(children, before + ("ERROR" + after), "ERROR", w);
    }
  }

  /** So does +CME ERROR with any plain cause. */
  lemma CmeErrorSettles(children: seq<Extension>, before: string, d: string, after: string, w: World)
    requires |w.pending| > 0 && children != [] && R.LineEnd(before) && R.LineEnd(after)
    requires R.Plain(d) && (d != "" ==> d[0] != ' ')
    ensures var text := before + ("+CME ERROR" + ([':'] + ([' '] + (d + after))));
            |text| <= 256 ==> ReceiveResponse(children, text, |text|, w) == Settled(w, "\r\nERROR\r\n")
  {
    var text := before + ("+CME ERROR" + ([':'] + ([' '] + (d + after))));
    ModemResults.CmeErrorParses(before, d, after);
    if |text| <= 256 {
      ErrorNameSettles(children, text, "+CME ERROR", w);
    }
  }

  /** And OK settles an AT+CGACT with exactly OK. */
  lemma OkSettles(children: seq<Extension>, before: string, after: string, w: World)
    requires |w.pending| > 0 && Last(w.pending) == PendingCgact
    requires children != [] && R.LineEnd(before) && R.LineEnd(after)
    ensures var text := before + ("OK" + after);
            |text| <= 256 ==> ReceiveResponse(children, text, |text|, w) == Settled(w, "\r\nOK\r\n")
  {
    ModemResults.OkParses(before, after);
    NamesDiffer("OK");
    CgactSettledExactly(children, before + ("OK" + after), |before + ("OK" + after)|, w);
  }
}
