/** What the proxy writes is first offered to a root parser again
    (core/src/ProxyOutputWriter.cpp). As wired by core/src/SmmFactory.cpp, to-host text goes
    to the command root and to-device text to the response root; no parser takes it. */
module Reinjection {
  import opened Text
  import opened World
  import C = AtCommandParser
  import R = AtResponseParser

  // ----- To-host text is no command

  /** A character that starts a command name other than "AT...". */
  predicate Ordinary(c: char) {
    c !in C.DELIMS && !Deleted(c) && c != 'A' && c != 'a' && c != '\0'
  }

  /** Text whose first visible character is ordinary, perhaps after an empty line. */
  predicate Foreign(s: string) {
    || (|s| >= 1 && Ordinary(s[0]))
    || (|s| >= 3 && s[0] == '\r' && s[1] == '\n' && Ordinary(s[2]))
  }

  lemma {:induction false} FirstStretch(a: string, b: string)
    requires Free(a, C.DELIMS)
    ensures a <= Split(a + b, C.DELIMS)[0]
  {
    if |b| == 0 {
      assert a + b == a;
      SplitFree(a, C.DELIMS);
    } else {
      var b0, d := DropLast(b), Last(b);
      FirstStretch(a, b0);
      Whole(b);
      Associates(a, b0, [d]);
      SplitSnoc(a + b0, d, C.DELIMS);
    }
  }

  /** The name starts with the first ordinary character. */
  lemma NameStarts(start: string, c: char, rest: string)
    requires Ordinary(c) && forall i :: 0 <= i < |start| ==> Deleted(start[i])
    ensures var name := Strip(Split(start + [c] + rest, C.DELIMS)[0]);
            name != "" && name[0] == c
  {
    var front := start + [c];
    assert Free(front, C.DELIMS);
    FirstStretch(front, rest);
    var stretch := Split(front + rest, C.DELIMS)[0];
    var more := stretch[|front|..];
    assert stretch == front + more;
    StripConcat(front, more);
    StripSnoc(start, c);
    StripDeleted(start);
    assert Strip(front) == [c];
  }

  lemma ForeignName(s: string, len: nat)
    requires Foreign(s) && len > 2
    ensures var name := C.Parse(s, len).value.name;
            name != "" && name[0] != 'A' && name[0] != 'a'
  {
    if Ordinary(s[0]) {
      assert s == [] + [s[0]] + s[1..];
      NameStarts([], s[0], s[1..]);
    } else {
      assert s == s[..2] + [s[2]] + s[3..];
      NameStarts(s[..2], s[2], s[3..]);
    }
  }

  lemma {:induction false} NoCommandFound(commands: seq<Command>, name: string)
    requires name != "" && name[0] != 'A' && name[0] != 'a'
    ensures FindCommand(commands, name) == None
  {
    if |commands| > 0 {
      assert Name(commands[0])[0] == 'A' && Lower('A') == 'a';
      NoCommandFound(commands[1..], name);
    }
  }

  lemma {:induction false} NoChildTakes(children: seq<Extension>, parsed: C.Command, w: World, env: Env)
    requires parsed.name != "" && parsed.name[0] != 'A' && parsed.name[0] != 'a'
    ensures CommandChildren(children, parsed, w, env) == Outcome(w, false)
  {
    if |children| > 0 {
      NoCommandFound(Commands(children[0]), parsed.name);
      NoChildTakes(children[1..], parsed, w, env);
    }
  }

  /** Foreign text passes the command root untouched. */
  lemma ForeignIsIgnored(children: seq<Extension>, s: string, len: nat, w: World, env: Env)
    requires Foreign(s)
    ensures ProcessCommand(children, s, len, w, env) == Outcome(w, false)
  {
    if len > 2 {
      ForeignName(s, len);
      NoChildTakes(children, C.Parse(s, len).value, w, env);
    }
  }

  /** Cutting, and stopping at a NUL, keep text foreign. */
  lemma CutForeign(s: string)
    requires Foreign(s)
    ensures Foreign(Cut(s)) && Foreign(CStr(s))
  {
    if Ordinary(s[0]) {
      CStrCons(s[0], s[1..]);
      assert [s[0]] + s[1..] == s;
    } else {
      var front := s[..3];
      assert '\0' !in front;
      CStrPrefix(front, s[3..]);
      assert front + s[3..] == s;
    }
  }

  /** Every line of a reply that starts with an ordinary name is foreign. */
  lemma LineIsForeign(name: string, body: string)
    requires name != "" && Ordinary(name[0])
    ensures Foreign(Line(name, body))
  {
  }

  // ----- To-device text is no response

  /** Text without a colon and without the first letter of any keyword but "+CME ERROR". */
  predicate Quiet(s: string) {
    forall i :: 0 <= i < |s| ==> s[i] != ':' && s[i] != 'O' && s[i] != 'E'
  }

  lemma NoKeywordInQuiet(s: string)
    requires Quiet(s)
    ensures R.KeywordAt(s) == None
  {
    assert R.Word(R.OkWord)[0] == 'O' && R.Word(R.ErrorWord)[0] == 'E' && R.Word(R.CmeErrorWord)[3] == 'E';
  }

  predicate Letter(t: R.Token) {
    !t.Key? && !t.Colon?
  }

  lemma {:induction false} LexQuiet(s: string)
    requires Quiet(s)
    ensures forall i :: 0 <= i < |R.Lex(s)| ==> Letter(R.Lex(s)[i])
    decreases |s|
  {
    if |s| > 0 {
      NoKeywordInQuiet(s);
      assert Quiet(s[1..]);
      LexQuiet(s[1..]);
      assert R.Lex(s) == [R.ScanChar(s[0])] + R.Lex(s[1..]);
    }
  }

  lemma {:induction false} NoErrorWord(ts: seq<R.Token>)
    requires forall i :: 0 <= i < |ts| ==> Letter(ts[i])
    ensures R.ErrorName(ts) == None
  {
    if |ts| > 0 {
      NoErrorWord(DropLast(ts));
    }
  }

  /** Quiet text names no response. */
  lemma QuietHasNoName(s: string)
    requires Quiet(s)
    ensures R.Parse(s).name == None
  {
    var ts := R.Lex(s);
    LexQuiet(s);
    NoErrorWord(ts);
    SplitFree(ts, {R.Colon});
  }

  lemma {:induction false} NamelessIsIgnored(children: seq<Extension>, parsed: R.Response, w: World)
    requires parsed.name == None
    ensures ResponseChildren(children, parsed, w) == Outcome(w, false)
  {
    if |children| > 0 {
      NamelessIsIgnored(children[1..], parsed, w);
    }
  }

  /** Quiet text passes the response root untouched. */
  lemma QuietIsIgnored(children: seq<Extension>, s: string, w: World)
    requires Quiet(s)
    ensures ProcessResponse(children, s, w) == Outcome(w, false)
  {
    QuietHasNoName(s);
    NamelessIsIgnored(children, R.Parse(s), w);
  }

  lemma CutQuiet(s: string)
    requires Quiet(s)
    ensures Quiet(Cut(s)) && Quiet(CStr(s))
  {
  }

  lemma SwwanIsQuiet(state: int, cid: int)
    ensures Quiet(SwwanText(state, cid))
  {
    var bad := {':', 'O', 'E'};
    var fields := [Dec(state), Dec(cid)];
    forall f | f in fields ensures Free(f, bad) {
      assert f == Dec(state) || f == Dec(cid);
    }
    JoinMembers(fields, ',', bad);
    var body := Join(fields, ',');
    assert forall i :: 0 <= i < |body| ==> body[i] in body;
  }

  // ----- The wiring

  /** Which root each side's text is offered to. */
  datatype Root = CommandRoot | ResponseRoot

  datatype Wiring = Wiring(toHost: Root, toDevice: Root)

  /** makeProxyOutputWriter(command root, response root). */
  const AS_WIRED := Wiring(CommandRoot, ResponseRoot)

  /** What the constructor's parameter names (toHost, toDevice) suggest. */
  const AS_NAMED := Wiring(ResponseRoot, CommandRoot)

  function Offer(root: Root, commands: seq<Extension>, responses: seq<Extension>, text: string, w: World,
                 env: Env): Outcome
  {
    match root
    case CommandRoot => ProcessCommand(commands, text, |text|, w, env)
    case ResponseRoot => ProcessResponse(responses, text, w)
  }

  /** writeToHost: offer the text, and pass it on if nobody takes it. */
  function WriteToHost(wiring: Wiring, commands: seq<Extension>, responses: seq<Extension>, text: string, w: World,
                       env: Env): World
  {
    var r := Offer(wiring.toHost, commands, responses, Cut(text), w, env);
    if r.consumed then r.world else Say(r.world, Cut(text))
  }

  function WriteToDevice(wiring: Wiring, commands: seq<Extension>, responses: seq<Extension>, text: string, w: World,
                         env: Env): World
  {
    var r := Offer(wiring.toDevice, commands, responses, Cut(text), w, env);
    if r.consumed then r.world else Tell(r.world, Cut(text))
  }

  /** As wired, foreign text reaches the host once and quiet text the device once, cut to 127
      characters, and nothing else happens. */
  lemma DeliveredOnce(commands: seq<Extension>, responses: seq<Extension>, text: string, w: World, env: Env)
    ensures Foreign(text) ==> WriteToHost(AS_WIRED, commands, responses, text, w, env) == Say(w, text)
    ensures Quiet(text) ==> WriteToDevice(AS_WIRED, commands, responses, text, w, env) == Tell(w, text)
  {
    if Foreign(text) {
      CutForeign(text);
      ForeignIsIgnored(commands, Cut(text), |Cut(text)|, w, env);
    }
    if Quiet(text) {
      CutQuiet(text);
      QuietIsIgnored(responses, Cut(text), w);
    }
  }

  lemma OkTextIsOk()
    ensures R.Parse(OK_TEXT).name == Some("OK")
  {
    var line, none := ['\r', '\n'], OK_TEXT[|OK_TEXT|..];
    assert OK_TEXT == line + (R.Word(R.OkWord) + (line + none));
    R.LexLineEnd(line, R.Word(R.OkWord) + (line + none));
    R.LexOk(line + none);
    R.LexLineEnd(line, none);
    OkTokensNameOk(R.Lex(OK_TEXT), R.Skips(line), R.Skips(line) + []);
  }

  lemma OkTokensNameOk(ts: seq<R.Token>, before: seq<R.Token>, after: seq<R.Token>)
    requires ts == before + ([R.Key(R.OkWord)] + after)
    requires (forall t <- before :: t == R.Skip) && (forall t <- after :: t == R.Skip)
    ensures R.NameOf(ts) == Some("OK")
  {
    assert ts[|before|] == R.Key(R.OkWord);
    R.NoErrorName(ts);
    SplitFree(ts, {R.Colon});
  }

  /** The claim needs the actual wiring: wired as the parameter names suggest, an OK written to
      the host would be taken for a modem result and remove a waiting CGACT. */
  lemma NamedWiringConsumes(commands: seq<Extension>, responses: seq<Extension>, w: World, env: Env)
    requires responses != [] && |w.pending| > 0 && Last(w.pending) == PendingCgact
    ensures WriteToHost(AS_NAMED, commands, responses, OK_TEXT, w, env) == Say(Dequeue(w), OK_TEXT)
  {
    OkTextIsOk();
    assert Cut(OK_TEXT) == OK_TEXT;
    OkFound(responses[0]);
  }

  lemma OkFound(e: Extension)
    ensures FindMessage(Messages(e), Some("OK")) == Some(OkMessage)
  {
    var all := Messages(e);
    var some, last := all[1..], all[2..];
    assert some[1..] == last && some[0] == ErrorMessage && last[0] == OkMessage;
    assert FindMessage(last, Some("OK")) == Some(OkMessage);
    assert FindMessage(some, Some("OK")) == FindMessage(last, Some("OK"));
  }
}
