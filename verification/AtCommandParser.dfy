/** The AT command tokeniser (core/src/AtCommandParser.cpp): what a command line
    means, the in-place loop that computes it, and its inverse printer. */
module AtCommandParser {
  import opened Text
  import opened Limits
  import opened TokenBuffers

  const DELIMS := {'?', '='}
  const COMMA := {','}

  datatype Kind = Undefined | Test | Write | Query

  /** argv[0], argv[1] and argv[2..argc] of the original. */
  datatype Command = Command(name: string, kind: Kind, args: seq<string>)

  // ----- Meaning of a command line

  /** The delimiters of s, in order. */
  function DelimsOf(s: string): string {
    if |s| == 0 then []
    else if Last(s) in DELIMS then DelimsOf(DropLast(s)) + [Last(s)]
    else DelimsOf(DropLast(s))
  }

  /** Only the last two delimiters decide the kind. */
  function KindOf(ds: string): Kind {
    if |ds| == 0 then Undefined
    else if Last(ds) == '=' then Write
    else if |ds| >= 2 && ds[|ds| - 2] == '=' then Test
    else Query
  }

  function StripAll(fields: seq<string>): (r: seq<string>) {
    seq(|fields|, i requires 0 <= i < |fields| => Strip(fields[i]))
  }

  /** The arguments ended by a comma: all but the last comma field of every stretch
      that follows an `=`. */
  function ClosedArgs(ds: string, stretches: seq<string>): seq<string>
    requires |stretches| == |ds| + 1
  {
    if |ds| == 0 then []
    else
      ClosedArgs(DropLast(ds), DropLast(stretches))
      + if Last(ds) == '=' then StripAll(DropLast(Split(Last(stretches), COMMA))) else []
  }

  /** Index of the first `?` that is not at index 0, or 0 when there is none. */
  function QueryMark(s: string): nat {
    if |s| == 0 then 0
    else
      var r := QueryMark(DropLast(s));
      if r != 0 then r else if Last(s) == '?' then |s| - 1 else 0
  }

  lemma {:induction false} QueryMarkIsFirst(s: string)
    ensures var r := QueryMark(s);
            && (r != 0 ==> r < |s| && s[r] == '?')
            && (forall i :: 0 < i < (if r == 0 then |s| else r) ==> s[i] != '?')
  {
    if |s| != 0 {
      QueryMarkIsFirst(DropLast(s));
    }
  }

  lemma {:induction false} DelimsAndStretches(s: string)
    ensures |Split(s, DELIMS)| == |DelimsOf(s)| + 1
  {
    if |s| != 0 {
      DelimsAndStretches(DropLast(s));
    }
  }

  /** The command with these delimiters and stretches. The name is the first stretch.
      After a final `=`, the last comma field is an argument unless it is empty.
      A query or test whose question mark is not second to last is rejected. */
  function Assemble(ds: string, stretches: seq<string>, mark: nat, len: nat): Command
    requires |stretches| == |ds| + 1
  {
    var kind := if |ds| == 0 then Query else KindOf(ds);
    var token := Strip(Last(Split(Last(stretches), COMMA)));
    Command(Strip(stretches[0]),
            if kind != Write && mark != 0 && mark != len - 2 then Undefined else kind,
            if kind == Write && |token| > 0 then ClosedArgs(ds, stretches) + [token] else ClosedArgs(ds, stretches))
  }

  function Parse(s: string, len: nat): Option<Command> {
    DelimsAndStretches(s);
    if len > 2 then Some(Assemble(DelimsOf(s), Split(s, DELIMS), QueryMark(s), len)) else None
  }

  // ----- One character at a time

  /** The local variables of the loop. */
  datatype Reading = Reading(kind: Kind, name: Option<string>, args: seq<string>, token: string, mark: nat)

  /** What the loop holds when it has read text with these delimiters and stretches. */
  function ReadingOf(ds: string, stretches: seq<string>, mark: nat): Reading
    requires |stretches| == |ds| + 1
  {
    var stretch := Last(stretches);
    Reading(KindOf(ds),
            if |ds| == 0 then None else Some(Strip(stretches[0])),
            ClosedArgs(ds, stretches),
            Strip(if KindOf(ds) == Write then Last(Split(stretch, COMMA)) else stretch),
            mark)
  }

  /** One turn of the loop, as a function on its local variables. */
  function ReadChar(r: Reading, c: char, p: nat): Reading {
    if c == '?' then
      Reading(if r.kind == Write then Test else Query, Some(if r.name == None then r.token else r.name.value),
              r.args, "", if r.mark == 0 then p else r.mark)
    else if c == '=' then
      Reading(Write, Some(if r.name == None then r.token else r.name.value), r.args, "", r.mark)
    else if r.kind == Write && c == ',' then r.(args := r.args + [r.token], token := "")
    else if Deleted(c) then r
    else r.(token := r.token + [c])
  }

  function ReadAll(s: string): Reading {
    if |s| == 0 then Reading(Undefined, None, [], "", 0)
    else ReadChar(ReadAll(DropLast(s)), Last(s), |s| - 1)
  }

  lemma EmptyField(f: string, seps: set<char>)
    requires |f| == 0
    ensures Strip(f) == f && Split(f, seps) == [f] && StripAll(DropLast(Split(f, seps))) == []
  {
  }

  lemma KindSnoc(ds: string, d: char)
    requires d in DELIMS
    ensures KindOf(ds + [d]) == if d == '=' then Write else if KindOf(ds) == Write then Test else Query
  {
  }

  lemma ClosedSnoc(ds: string, stretches: seq<string>, d: char, f: string)
    requires |stretches| == |ds| + 1 && |f| == 0
    ensures ClosedArgs(ds + [d], stretches + [f]) == ClosedArgs(ds, stretches)
  {
    assert DropLast(ds + [d]) == ds && DropLast(stretches + [f]) == stretches;
    EmptyField(f, COMMA);
    assert ClosedArgs(ds, stretches) + [] == ClosedArgs(ds, stretches);
  }

  lemma ReadDelim(ds: string, stretches: seq<string>, mark: nat, d: char, f: string, p: nat)
    requires |stretches| == |ds| + 1 && d in DELIMS && |f| == 0
    ensures ReadChar(ReadingOf(ds, stretches, mark), d, p)
         == ReadingOf(ds + [d], stretches + [f], if d == '?' && mark == 0 then p else mark)
  {
    KindSnoc(ds, d);
    ClosedSnoc(ds, stretches, d, f);
    EmptyField(f, COMMA);
  }

  /** Only the last stretch changes between two delimiters. */
  lemma ClosedChange(ds: string, stretches: seq<string>, stretch: string, more: seq<string>)
    requires |stretches| == |ds| + 1
    requires KindOf(ds) == Write ==>
               StripAll(DropLast(Split(stretch, COMMA))) == StripAll(DropLast(Split(Last(stretches), COMMA))) + more
    requires KindOf(ds) != Write ==> more == []
    ensures ClosedArgs(ds, DropLast(stretches) + [stretch]) == ClosedArgs(ds, stretches) + more
  {
    var changed := DropLast(stretches) + [stretch];
    assert DropLast(changed) == DropLast(stretches);
    if |ds| != 0 {
      var a := ClosedArgs(DropLast(ds), DropLast(stretches));
      if Last(ds) == '=' {
        var b := StripAll(DropLast(Split(Last(stretches), COMMA)));
        assert a + (b + more) == (a + b) + more;
      } else {
        assert a + [] + more == a + [];
      }
    }
  }

  lemma StripAllWhole(fields: seq<string>)
    requires fields != []
    ensures StripAll(fields) == StripAll(DropLast(fields)) + [Strip(Last(fields))]
  {
  }

  /** A comma closes the last field and opens an empty one. */
  lemma CommaField(stretch: string)
    ensures var fields := Split(stretch + [','], COMMA);
            DropLast(fields) == Split(stretch, COMMA) && |Last(fields)| == 0
  {
    SplitSnoc(stretch, ',', COMMA);
    Unsnoc(Split(stretch, COMMA), [','][..0]);
  }

  lemma ReadComma(ds: string, stretches: seq<string>, mark: nat, p: nat)
    requires |stretches| == |ds| + 1 && KindOf(ds) == Write
    ensures ReadChar(ReadingOf(ds, stretches, mark), ',', p)
         == ReadingOf(ds, DropLast(stretches) + [Last(stretches) + [',']], mark)
  {
    var stretch := Last(stretches);
    var fields := Split(stretch, COMMA);
    CommaField(stretch);
    StripAllWhole(fields);
    ClosedChange(ds, stretches, stretch + [','], [Strip(Last(fields))]);
    Unsnoc(DropLast(stretches), stretch + [',']);
    CommaReading(ds, stretches, mark, p);
  }

  /** The other variables at a comma: an empty token, and the name as it was. */
  lemma CommaReading(ds: string, stretches: seq<string>, mark: nat, p: nat)
    requires |stretches| == |ds| + 1 && KindOf(ds) == Write
    ensures var before := ReadingOf(ds, stretches, mark);
            var after := ReadingOf(ds, DropLast(stretches) + [Last(stretches) + [',']], mark);
            && after == Reading(before.kind, before.name, after.args, "", mark)
            && ReadChar(before, ',', p) == before.(args := before.args + [before.token], token := "")
            && before.token == Strip(Last(Split(Last(stretches), COMMA)))
  {
    var changed := DropLast(stretches) + [Last(stretches) + [',']];
    CommaField(Last(stretches));
    assert Last(changed) == Last(stretches) + [','];
    assert |ds| > 0 && changed[0] == stretches[0];
  }

  /** Any other character lengthens the last field. */
  lemma PlainField(stretch: string, c: char)
    requires c != ','
    ensures var fields, after := Split(stretch, COMMA), Split(stretch + [c], COMMA);
            DropLast(after) == DropLast(fields) && Last(after) == Last(fields) + [c]
  {
    var fields := Split(stretch, COMMA);
    SplitSnoc(stretch, c, COMMA);
    Unsnoc(DropLast(fields), Last(fields) + [c]);
  }

  lemma PlainArgsKept(ds: string, stretches: seq<string>, c: char)
    requires |stretches| == |ds| + 1 && (KindOf(ds) == Write ==> c != ',')
    ensures ClosedArgs(ds, DropLast(stretches) + [Last(stretches) + [c]]) == ClosedArgs(ds, stretches)
  {
    if KindOf(ds) == Write {
      PlainField(Last(stretches), c);
    }
    ClosedChange(ds, stretches, Last(stretches) + [c], []);
  }

  lemma OpenField(ds: string, stretch: string, c: char)
    requires KindOf(ds) == Write ==> c != ','
    ensures var before := Strip(if KindOf(ds) == Write then Last(Split(stretch, COMMA)) else stretch);
            var after := Strip(if KindOf(ds) == Write then Last(Split(stretch + [c], COMMA)) else stretch + [c]);
            after == if Deleted(c) then before else before + [c]
  {
    if KindOf(ds) == Write {
      PlainField(stretch, c);
      StripSnoc(Last(Split(stretch, COMMA)), c);
    } else {
      StripSnoc(stretch, c);
    }
  }

  lemma ReadPlain(ds: string, stretches: seq<string>, mark: nat, c: char, p: nat)
    requires |stretches| == |ds| + 1 && c !in DELIMS && (KindOf(ds) == Write ==> c != ',')
    ensures ReadChar(ReadingOf(ds, stretches, mark), c, p)
         == ReadingOf(ds, DropLast(stretches) + [Last(stretches) + [c]], mark)
  {
    Unsnoc(DropLast(stretches), Last(stretches) + [c]);
    PlainArgsKept(ds, stretches, c);
    OpenField(ds, Last(stretches), c);
  }

  /** Reading left to right computes what the delimiters of the whole text mean. */
  lemma {:induction false} ReadAllMeans(s: string)
    ensures |Split(s, DELIMS)| == |DelimsOf(s)| + 1
    ensures ReadAll(s) == ReadingOf(DelimsOf(s), Split(s, DELIMS), QueryMark(s))
  {
    DelimsAndStretches(s);
    if |s| == 0 {
      assert s == "";
      EmptyField(s, DELIMS);
    } else {
      var t, c, p := DropLast(s), Last(s), |s| - 1;
      DelimsAndStretches(t);
      ReadAllMeans(t);
      var ds, stretches, mark := DelimsOf(t), Split(t, DELIMS), QueryMark(t);
      if c in DELIMS {
        ReadDelim(ds, stretches, mark, c, [c][..0], p);
      } else if KindOf(ds) == Write && c == ',' {
        ReadComma(ds, stretches, mark, p);
      } else {
        ReadPlain(ds, stretches, mark, c, p);
      }
    }
  }

  lemma ReadNext(s: string, p: nat)
    requires p < |s|
    ensures ReadAll(s[..p + 1]) == ReadChar(ReadAll(s[..p]), s[p], p)
  {
    assert DropLast(s[..p + 1]) == s[..p];
  }

  lemma {:induction false} TokenNulFree(s: string)
    requires '\0' !in s
    ensures '\0' !in ReadAll(s).token
  {
    if |s| != 0 {
      TokenNulFree(DropLast(s));
    }
  }

  // ----- The loop

  /** Every token fits the 128-byte buffer, terminator included. */
  ghost predicate TokensFit(s: string) {
    forall n :: 0 <= n <= |s| ==> |ReadAll(s[..n]).token| < MSG_BUF_SIZE
  }

  lemma {:induction false} TokenBound(s: string)
    ensures |ReadAll(s).token| <= |s|
  {
    if |s| != 0 {
      TokenBound(DropLast(s));
    }
  }

  /** Text shorter than the buffer always fits. */
  lemma ShortTextFits(s: string)
    requires |s| < MSG_BUF_SIZE
    ensures TokensFit(s)
  {
    forall n | 0 <= n <= |s| ensures |ReadAll(s[..n]).token| < MSG_BUF_SIZE {
      TokenBound(s[..n]);
    }
  }

  /** The statements after the loop. */
  function Finish(kind: Kind, name: Option<string>, args: seq<string>, token: string, mark: nat, len: nat): Command
    requires len > 2
  {
    var settled := if kind == Undefined then Query else kind;
    Command(
      if name == None then token else name.value,
      if (settled == Test || settled == Query) && mark != len - 2 && mark != 0 then Undefined else settled,
      if settled == Write && |token| > 0 then args + [token] else args)
  }

  lemma FinishAssembles(ds: string, stretches: seq<string>, mark: nat, len: nat)
    requires |stretches| == |ds| + 1 && len > 2
    ensures var r := ReadingOf(ds, stretches, mark);
            Assemble(ds, stretches, mark, len) == Finish(r.kind, r.name, r.args, r.token, r.mark, len)
  {
    assert KindOf(ds) == Undefined <==> |ds| == 0;
    assert |ds| == 0 ==> stretches[0] == Last(stretches);
  }

  lemma FinishParses(s: string, len: nat)
    requires len > 2
    ensures var r := ReadAll(s);
            Parse(s, len) == Some(Finish(r.kind, r.name, r.args, r.token, r.mark, len))
  {
    ReadAllMeans(s);
    FinishAssembles(DelimsOf(s), Split(s, DELIMS), QueryMark(s), len);
  }

  /** The states the loop goes through, and what each turn relies on. */
  lemma Trail(s: string) returns (trail: seq<Reading>)
    requires '\0' !in s && TokensFit(s)
    ensures |trail| == |s| + 1 && trail[0] == Reading(Undefined, None, [], "", 0) && trail[|s|] == ReadAll(s)
    ensures forall p :: 0 <= p < |s| ==> trail[p + 1] == ReadChar(trail[p], s[p], p)
    ensures forall p :: 0 <= p <= |s| ==> CStr(trail[p].token) == trail[p].token && |trail[p].token| < MSG_BUF_SIZE
  {
    trail := seq(|s| + 1, p requires 0 <= p <= |s| => ReadAll(s[..p]));
    forall p | 0 <= p <= |s|
      ensures CStr(trail[p].token) == trail[p].token && |trail[p].token| < MSG_BUF_SIZE
    {
      TokenNulFree(s[..p]);
      CStrIdentity(trail[p].token);
    }
    forall p | 0 <= p < |s| ensures trail[p + 1] == ReadChar(trail[p], s[p], p) {
      ReadNext(s, p);
    }
    assert s[..|s|] == s;
  }

  /** The assignments of the loop body, for the character at p. */
  method TakeChar(tmp: TokenBuffer, c: char, p: nat, kind0: Kind, command0: Option<string>, argv0: seq<string>,
                  mark0: nat) returns (kind: Kind, command: Option<string>, argv: seq<string>, qmPos: nat)
    requires tmp.Valid() && CStr(tmp.Written()) == tmp.Written()
    requires |ReadChar(Reading(kind0, command0, argv0, tmp.Written(), mark0), c, p).token| < tmp.tmp.Length
    modifies tmp, tmp.tmp
    ensures tmp.Valid()
    ensures Reading(kind, command, argv, tmp.Written(), qmPos)
         == ReadChar(Reading(kind0, command0, argv0, old(tmp.Written()), mark0), c, p)
  {
    kind, command, argv, qmPos := kind0, command0, argv0, mark0;
    if c == '?' || c == '=' {
      if command == None {
        var text := tmp.Dup();
        command := Some(text);
      }
      tmp.Reset();
      if c == '?' {
        kind := if kind == Write then Test else Query;
        if qmPos == 0 {
          qmPos := p;
        }
      }
      if c == '=' {
        kind := Write;
      }
    } else if kind == Write && c == ',' {
      var text := tmp.Dup();
      argv := argv + [text];
      tmp.Reset();
    } else if c != '\r' && c != '\n' && c != '\"' {
      tmp.Put(c);
    } else {
      tmp.Drop();
    }
  }

  /** The line has more arguments than argv has room for. */
  predicate Overruns(s: string, len: nat) {
    var parsed := Parse(s, len);
    parsed.Some? && |parsed.value.args| > MSG_MAX_ARGS - 2
  }

  /** The tokeniser of onDataAvailable: p walks the data, the buffer holds the token. overrun tells
      whether an argument was written past the end of argv, after which the original's memory is
      undefined and r is what the line means. */
  method Tokenise(data: seq<char>, len: nat) returns (r: Option<Command>, overrun: bool)
    requires len < |data| && data[len] == '\0'
    requires TokensFit(CStr(data[..len]))
    ensures r == Parse(CStr(data[..len]), len)
    ensures overrun <==> Overruns(CStr(data[..len]), len)
  {
    if len <= 2 {
      return None, false;
    }
    ghost var s := CStr(data[..len]);
    var kind, command: Option<string>, argv := Undefined, None, [];
    var tmp := new TokenBuffer(MSG_BUF_SIZE);
    var p, qmPos := 0, 0;
    ghost var trail := Trail(s);
    while p < len && data[p] != '\0'
      invariant p <= |s|
      invariant fresh(tmp) && fresh(tmp.tmp) && tmp.Valid() && tmp.tmp.Length == MSG_BUF_SIZE
      invariant Reading(kind, command, argv, tmp.Written(), qmPos) == trail[p]
    {
      CStrIndex(data, len, p);
      assert trail[p + 1] == ReadChar(trail[p], data[p], p);
      kind, command, argv, qmPos := TakeChar(tmp, data[p], p, kind, command, argv, qmPos);
      p := p + 1;
    }
    CStrIndex(data, len, p);
    var text := tmp.Dup();
    FinishParses(s, len);
    r := Some(Finish(kind, command, argv, text, qmPos, len));
    overrun := |r.value.args| > MSG_MAX_ARGS - 2;
  }

  lemma {:induction false} ClosedArgsUndeleted(ds: string, stretches: seq<string>)
    requires |stretches| == |ds| + 1
    ensures forall arg <- ClosedArgs(ds, stretches) :: Undeleted(arg)
  {
    if |ds| > 0 {
      ClosedArgsUndeleted(DropLast(ds), DropLast(stretches));
      var fields := DropLast(Split(Last(stretches), COMMA));
      forall i | 0 <= i < |fields| ensures Undeleted(StripAll(fields)[i]) {
        StripKeepsNone(fields[i]);
      }
    }
  }

  /** No line end and no quote reaches an argument. */
  lemma ArgsUndeleted(s: string, len: nat)
    requires len > 2
    ensures forall arg <- Parse(s, len).value.args :: Undeleted(arg)
  {
    DelimsAndStretches(s);
    ClosedArgsUndeleted(DelimsOf(s), Split(s, DELIMS));
    StripKeepsNone(Last(Split(Last(Split(s, DELIMS)), COMMA)));
  }

  /** Text without any separator of a command line. */
  predicate SeparatorFree(text: string) {
    forall c <- text :: c !in DELIMS && c != ','
  }

  lemma FieldsFree(stretch: string)
    requires Free(stretch, DELIMS)
    ensures forall i :: 0 <= i < |Split(stretch, COMMA)| ==> SeparatorFree(Strip(Split(stretch, COMMA)[i]))
  {
    var fields := Split(stretch, COMMA);
    SplitFields(stretch, COMMA);
    forall i | 0 <= i < |fields| ensures SeparatorFree(Strip(fields[i])) {
      StripKeepsNone(fields[i]);
      assert fields[i] in fields;
      forall c | c in fields[i] ensures c in stretch {
        SplitMembers(stretch, COMMA, fields[i], c);
      }
    }
  }

  lemma {:induction false} ClosedArgsFree(ds: string, stretches: seq<string>)
    requires |stretches| == |ds| + 1 && forall i :: 0 <= i < |stretches| ==> Free(stretches[i], DELIMS)
    ensures forall arg <- ClosedArgs(ds, stretches) :: SeparatorFree(arg)
  {
    if |ds| > 0 {
      ClosedArgsFree(DropLast(ds), DropLast(stretches));
      FieldsFree(Last(stretches));
    }
  }

  /** No separator reaches an argument. */
  lemma ArgsFree(s: string, len: nat)
    requires len > 2
    ensures forall arg <- Parse(s, len).value.args :: SeparatorFree(arg)
  {
    DelimsAndStretches(s);
    SplitFields(s, DELIMS);
    var stretches := Split(s, DELIMS);
    assert forall i :: 0 <= i < |stretches| ==> stretches[i] in stretches;
    ClosedArgsFree(DelimsOf(s), stretches);
    FieldsFree(Last(stretches));
  }

  // ----- The printer

  datatype Arg = Arg(text: string, quoted: bool)

  datatype Form = Execution | Read | Probe | Assignment(args: seq<Arg>)

  function PrintArg(a: Arg): string {
    if a.quoted then ['\"'] + a.text + ['\"'] else a.text
  }

  function PrintArgs(args: seq<Arg>): seq<string> {
    seq(|args|, i requires 0 <= i < |args| => PrintArg(args[i]))
  }

  function Texts(args: seq<Arg>): seq<string> {
    seq(|args|, i requires 0 <= i < |args| => args[i].text)
  }

  function Print(name: string, form: Form): string
    requires form.Assignment? ==> form.args != []
  {
    match form
    case Execution => name
    case Read => name + ['?']
    case Probe => name + ['=', '?']
    case Assignment(args) => name + ['='] + Join(PrintArgs(args), ',')
  }

  predicate CleanName(name: string) {
    forall c <- name :: c !in DELIMS && !Deleted(c)
  }

  predicate CleanArg(text: string) {
    forall c <- text :: c !in DELIMS && c != ',' && !Deleted(c)
  }

  predicate CleanForm(form: Form) {
    form.Assignment? ==> form.args != [] && forall i :: 0 <= i < |form.args| ==> CleanArg(form.args[i].text)
  }

  predicate Terminator(t: string) {
    forall i :: 0 <= i < |t| ==> t[i] == '\r' || t[i] == '\n'
  }

  function ExpectedKind(form: Form, terminators: nat): Kind {
    match form
    case Execution => Query
    case Read => if terminators == 1 then Query else Undefined
    case Probe => if terminators == 1 then Test else Undefined
    case Assignment(_) => Write
  }

  /** A trailing empty argument is dropped; everything else comes back. */
  function ExpectedArgs(form: Form): seq<string>
    requires CleanForm(form)
  {
    if form.Assignment? then
      if Last(form.args).text == "" then DropLast(Texts(form.args)) else Texts(form.args)
    else []
  }

  lemma DelimsSnoc(s: string, c: char)
    ensures DelimsOf(s + [c]) == if c in DELIMS then DelimsOf(s) + [c] else DelimsOf(s)
  {
    assert DropLast(s + [c]) == s;
  }

  lemma {:induction false} DelimsConcat(a: string, b: string)
    ensures DelimsOf(a + b) == DelimsOf(a) + DelimsOf(b)
  {
    if |b| == 0 {
      assert a + b == a;
    } else {
      var b0, d := DropLast(b), Last(b);
      DelimsConcat(a, b0);
      Whole(b);
      Associates(a, b0, [d]);
      DelimsSnoc(a + b0, d);
      Associates(DelimsOf(a), DelimsOf(b0), [d]);
    }
  }

  lemma {:induction false} DelimsFree(s: string)
    requires Free(s, DELIMS)
    ensures |DelimsOf(s)| == 0
  {
    if |s| != 0 {
      assert Last(s) in s && forall c <- DropLast(s) :: c in s;
      DelimsFree(DropLast(s));
    }
  }

  lemma QueryMarkAt(s: string, i: nat)
    requires 0 < i < |s| && s[i] == '?' && forall j :: 0 < j < i ==> s[j] != '?'
    ensures QueryMark(s) == i
  {
    QueryMarkIsFirst(s);
  }

  lemma StripQuotes(text: string)
    ensures Strip(['\"'] + text + ['\"']) == Strip(text)
  {
    var q := ['\"'];
    assert |DropLast(q)| == 0 && |Strip(q)| == 0;
    StripSnoc(q + text, '\"');
    StripConcat(q, text);
    assert Strip(q) + Strip(text) == Strip(text);
  }

  lemma StripArg(a: Arg)
    requires CleanArg(a.text)
    ensures Strip(PrintArg(a)) == a.text
    ensures SeparatorFree(PrintArg(a))
  {
    StripIdentity(a.text);
    StripQuotes(a.text);
  }

  lemma StripPrinted(args: seq<Arg>)
    requires forall i :: 0 <= i < |args| ==> CleanArg(args[i].text)
    ensures StripAll(PrintArgs(args)) == Texts(args)
    ensures forall i :: 0 <= i < |args| ==> SeparatorFree(PrintArgs(args)[i])
  {
    forall i | 0 <= i < |args|
      ensures Strip(PrintArgs(args)[i]) == args[i].text && SeparatorFree(PrintArgs(args)[i])
    {
      StripArg(args[i]);
    }
  }

  /** What Assemble makes of a single delimiter. */
  lemma AssembleOne(ds: string, stretches: seq<string>)
    requires |ds| == 1 && ds[0] in DELIMS && |stretches| == 2
    ensures ClosedArgs(ds, stretches) == if ds[0] == '=' then StripAll(DropLast(Split(stretches[1], COMMA))) else []
  {
    assert |DropLast(ds)| == 0;
  }

  /** The pieces of "name, delimiter, rest" with a clean name. */
  lemma OneDelim(name: string, d: char, rest: string)
    requires CleanName(name) && d in DELIMS
    ensures Split(name + [d] + rest, DELIMS) == [name] + Split(rest, DELIMS)
    ensures DelimsOf(name + [d] + rest) == [d] + DelimsOf(rest)
  {
    Associates(name, [d], rest);
    FreeSplit(name, d, rest);
    FreeDelim(name, d, rest);
  }

  lemma AssembleExecution(ds: string, stretches: seq<string>, len: nat)
    requires |ds| == 0 && |stretches| == 1
    ensures Assemble(ds, stretches, 0, len) == Command(Strip(stretches[0]), Query, [])
  {
  }

  lemma NoQueryMark(s: string)
    requires Free(s, DELIMS)
    ensures QueryMark(s) == 0
  {
    QueryMarkIsFirst(s);
  }

  lemma StripLine(name: string, t: string)
    requires CleanName(name) && Terminator(t)
    ensures Strip(name + t) == name
  {
    StripConcat(name, t);
    StripIdentity(name);
    StripDeleted(t);
    assert name + Strip(t) == name;
  }

  lemma RoundTripExecution(name: string, t: string)
    requires CleanName(name) && |name| >= 3 && Terminator(t)
    ensures Parse(name + t, |name + t|) == Some(Command(name, Query, []))
  {
    var s := name + t;
    NoQueryMark(s);
    SplitFree(s, DELIMS);
    DelimsFree(s);
    StripLine(name, t);
    AssembleExecution(DelimsOf(s), Split(s, DELIMS), |s|);
  }

  lemma AssembleRead(ds: string, stretches: seq<string>, mark: nat, len: nat)
    requires |ds| == 1 && ds[0] == '?' && |stretches| == 2 && mark > 0
    ensures Assemble(ds, stretches, mark, len)
         == Command(Strip(stretches[0]), if mark == len - 2 then Query else Undefined, [])
  {
    AssembleOne(ds, stretches);
  }

  lemma RoundTripRead(name: string, t: string)
    requires CleanName(name) && |name| >= 3 && Terminator(t)
    ensures Parse(name + ['?'] + t, |name + ['?'] + t|) == Some(Command(name, ExpectedKind(Read, |t|), []))
  {
    var s := name + ['?'] + t;
    OneDelim(name, '?', t);
    SplitFree(t, DELIMS);
    DelimsFree(t);
    QueryMarkAt(s, |name|);
    StripIdentity(name);
    AssembleRead(DelimsOf(s), Split(s, DELIMS), |name|, |s|);
  }

  /** "=?" leaves no argument behind. */
  lemma AssembleProbe(ds: string, stretches: seq<string>, mark: nat, len: nat)
    requires |ds| == 2 && ds[0] == '=' && ds[1] == '?' && |stretches| == 3 && |stretches[1]| == 0 && mark > 0
    ensures Assemble(ds, stretches, mark, len)
         == Command(Strip(stretches[0]), if mark == len - 2 then Test else Undefined, [])
  {
    AssembleOne(DropLast(ds), DropLast(stretches));
    EmptyField(stretches[1], COMMA);
  }

  lemma ProbePieces(name: string, none: string, t: string)
    requires CleanName(name) && Terminator(t) && |none| == 0
    ensures |DelimsOf(name + ['='] + (none + ['?'] + t))| == 2
    ensures DelimsOf(name + ['='] + (none + ['?'] + t))[0] == '='
    ensures DelimsOf(name + ['='] + (none + ['?'] + t))[1] == '?'
    ensures Split(name + ['='] + (none + ['?'] + t), DELIMS) == [name, none, t]
  {
    OneDelim(name, '=', none + ['?'] + t);
    OneDelim(none, '?', t);
    SplitFree(t, DELIMS);
    DelimsFree(t);
  }

  lemma RoundTripProbe(name: string, t: string)
    requires CleanName(name) && |name| >= 3 && Terminator(t)
    ensures Parse(name + ['=', '?'] + t, |name + ['=', '?'] + t|) == Some(Command(name, ExpectedKind(Probe, |t|), []))
  {
    var s := name + ['=', '?'] + t;
    var none := name[..0];
    ProbePieces(name, none, t);
    assert s == name + ['='] + (none + ['?'] + t);
    QueryMarkAt(s, |name| + 1);
    StripIdentity(name);
    AssembleProbe(DelimsOf(s), Split(s, DELIMS), |name| + 1, |s|);
  }

  lemma AssembleWrite(ds: string, stretches: seq<string>, mark: nat, len: nat, args: seq<Arg>)
    requires |ds| == 1 && ds[0] == '=' && |stretches| == 2 && CleanForm(Assignment(args))
    requires StripAll(DropLast(Split(stretches[1], COMMA))) == DropLast(Texts(args))
    requires Strip(Last(Split(stretches[1], COMMA))) == Last(Texts(args)) == Last(args).text
    ensures Assemble(ds, stretches, mark, len)
         == Command(Strip(stretches[0]), Write, ExpectedArgs(Assignment(args)))
  {
    AssembleOne(ds, stretches);
    Whole(Texts(args));
  }

  lemma RoundTripAssignment(name: string, args: seq<Arg>, t: string)
    requires CleanName(name) && |name| >= 3 && Terminator(t) && CleanForm(Assignment(args))
    ensures var s := Print(name, Assignment(args)) + t;
            Parse(s, |s|) == Some(Command(name, Write, ExpectedArgs(Assignment(args))))
  {
    var stretch := Join(PrintArgs(args), ',') + t;
    AssignedStretch(args, t);
    AssignedArgs(args, Split(stretch, COMMA), t);
    AssignedParse(name, stretch, args);
    PrintedIs(name, args, t);
  }

  lemma PrintedIs(name: string, args: seq<Arg>, t: string)
    requires args != []
    ensures Print(name, Assignment(args)) + t == name + (['='] + (Join(PrintArgs(args), ',') + t))
  {
  }

  lemma AssignedParse(name: string, stretch: string, args: seq<Arg>)
    requires CleanName(name) && |name| >= 3 && Free(stretch, DELIMS) && CleanForm(Assignment(args))
    requires StripAll(DropLast(Split(stretch, COMMA))) == DropLast(Texts(args))
    requires Strip(Last(Split(stretch, COMMA))) == Last(Texts(args)) == Last(args).text
    ensures var s := name + (['='] + stretch);
            Parse(s, |s|) == Some(Command(name, Write, ExpectedArgs(Assignment(args))))
  {
    var s := name + (['='] + stretch);
    AssignedPieces(name, stretch);
    Associates(name, ['='], stretch);
    StripIdentity(name);
    AssembleWrite(DelimsOf(s), Split(s, DELIMS), QueryMark(s), |s|, args);
  }

  lemma AssignedPieces(name: string, stretch: string)
    requires CleanName(name) && Free(stretch, DELIMS)
    ensures Split(name + ['='] + stretch, DELIMS) == [name, stretch] && DelimsOf(name + ['='] + stretch) == ['=']
  {
    OneDelim(name, '=', stretch);
    SplitFree(stretch, DELIMS);
    DelimsFree(stretch);
  }

  lemma AssignedStretch(args: seq<Arg>, t: string)
    requires Terminator(t) && CleanForm(Assignment(args))
    ensures Free(Join(PrintArgs(args), ',') + t, DELIMS)
    ensures Split(Join(PrintArgs(args), ',') + t, COMMA) == PrintArgs(DropLast(args)) + [PrintArg(Last(args)) + t]
  {
    var fields := PrintArgs(args);
    StripPrinted(args);
    JoinMembers(fields, ',', DELIMS);
    SplitJoin(fields, ',');
    SplitAppendFree(Join(fields, ','), t, COMMA);
    assert DropLast(fields) == PrintArgs(DropLast(args));
  }

  lemma AssignedArgs(args: seq<Arg>, fields: seq<string>, t: string)
    requires CleanForm(Assignment(args)) && Terminator(t)
    requires fields == PrintArgs(DropLast(args)) + [PrintArg(Last(args)) + t]
    ensures StripAll(DropLast(fields)) == DropLast(Texts(args))
    ensures Strip(Last(fields)) == Last(Texts(args)) == Last(args).text
  {
    StripPrinted(DropLast(args));
    Unsnoc(PrintArgs(DropLast(args)), PrintArg(Last(args)) + t);
    StripTerminated(Last(args), t);
    assert DropLast(Texts(args)) == Texts(DropLast(args));
  }

  lemma StripTerminated(a: Arg, t: string)
    requires CleanArg(a.text) && Terminator(t)
    ensures Strip(PrintArg(a) + t) == a.text
  {
    StripConcat(PrintArg(a), t);
    StripArg(a);
    StripDeleted(t);
    assert a.text + Strip(t) == a.text;
  }

  /** Printing then parsing gives back the name, the kind and the arguments, for every
      line terminator; read and test commands survive exactly when it is one character. */
  lemma RoundTrip(name: string, form: Form, t: string)
    requires CleanName(name) && |name| >= 3 && CleanForm(form) && Terminator(t)
    ensures var s := Print(name, form) + t;
            Parse(s, |s|) == Some(Command(name, ExpectedKind(form, |t|), ExpectedArgs(form)))
  {
    match form
    case Execution => RoundTripExecution(name, t);
    case Read => RoundTripRead(name, t);
    case Probe => RoundTripProbe(name, t);
    case Assignment(args) => RoundTripAssignment(name, args, t);
  }

  // ----- A second delimiter

  lemma DelimAlone(d: char)
    requires d in DELIMS
    ensures DelimsOf([d]) == [d]
  {
    assert |DropLast([d])| == 0;
  }

  lemma FreeSplit(x: string, d: char, rest: string)
    requires Free(x, DELIMS) && d in DELIMS
    ensures Split(x + ([d] + rest), DELIMS) == [x] + Split(rest, DELIMS)
  {
    Associates(x, [d], rest);
    SplitAtSeparator(x, d, rest, DELIMS);
    SplitFree(x, DELIMS);
  }

  lemma FreeDelim(x: string, d: char, rest: string)
    requires Free(x, DELIMS) && d in DELIMS
    ensures DelimsOf(x + ([d] + rest)) == [d] + DelimsOf(rest)
  {
    var tail := [d] + rest;
    DelimsFree(x);
    DelimsConcat(x, tail);
    DelimsConcat([d], rest);
    DelimAlone(d);
  }

  lemma TwoStretches(x: string, e: char, y: string)
    requires Free(x, DELIMS) && Free(y, DELIMS) && e in DELIMS
    ensures Split(x + ([e] + y), DELIMS) == [x, y] && DelimsOf(x + ([e] + y)) == [e]
  {
    FreeDelim(x, e, y);
    FreeSplit(x, e, y);
    SplitFree(y, DELIMS);
    DelimsFree(y);
  }

  /** Two delimiters cut a line into three stretches. */
  lemma ThreeStretches(name: string, d: char, x: string, e: char, y: string)
    requires Free(name, DELIMS) && Free(x, DELIMS) && Free(y, DELIMS) && d in DELIMS && e in DELIMS
    ensures var s := name + ([d] + (x + ([e] + y)));
            Split(s, DELIMS) == [name, x, y] && DelimsOf(s) == [d, e]
  {
    var rest := x + ([e] + y);
    TwoStretches(x, e, y);
    FreeDelim(name, d, rest);
    FreeSplit(name, d, rest);
  }

  lemma AssembleTwo(ds: string, stretches: seq<string>)
    requires |ds| == 2 && ds[0] == '=' && |stretches| == 3
    ensures ClosedArgs(ds, stretches) ==
            StripAll(DropLast(Split(stretches[1], COMMA)))
            + if ds[1] == '=' then StripAll(DropLast(Split(stretches[2], COMMA))) else []
  {
    AssembleOne(DropLast(ds), DropLast(stretches));
  }

  /** The arguments of a stretch, all but the last and the last. */
  lemma StretchArgs(args: seq<Arg>, t: string)
    requires Terminator(t) && CleanForm(Assignment(args))
    ensures var stretch := Join(PrintArgs(args), ',') + t;
            && Free(stretch, DELIMS) && StripAll(DropLast(Split(stretch, COMMA))) == DropLast(Texts(args))
            && Strip(Last(Split(stretch, COMMA))) == Last(args).text
  {
    AssignedStretch(args, t);
    AssignedArgs(args, Split(Join(PrintArgs(args), ',') + t, COMMA), t);
  }

  lemma StretchArgsOnly(args: seq<Arg>)
    requires CleanForm(Assignment(args))
    ensures var stretch := Join(PrintArgs(args), ',');
            Free(stretch, DELIMS) && StripAll(DropLast(Split(stretch, COMMA))) == DropLast(Texts(args))
  {
    StretchArgs(args, "");
    assert Join(PrintArgs(args), ',') + "" == Join(PrintArgs(args), ',');
  }

  /** A second "=" drops the argument before it that no comma has closed; the closed ones stay. */
  lemma SecondAssignment(name: string, first: seq<Arg>, second: seq<Arg>, t: string)
    requires CleanName(name) && |name| >= 3 && Terminator(t)
    requires CleanForm(Assignment(first)) && CleanForm(Assignment(second))
    ensures var s := name + (['='] + (Join(PrintArgs(first), ',') + (['='] + (Join(PrintArgs(second), ',') + t))));
            Parse(s, |s|) == Some(Command(name, Write, DropLast(Texts(first)) + ExpectedArgs(Assignment(second))))
  {
    var x, y := Join(PrintArgs(first), ','), Join(PrintArgs(second), ',') + t;
    StretchArgsOnly(first);
    StretchArgs(second, t);
    ThreeStretches(name, '=', x, '=', y);
    AssembleTwo(['=', '='], [name, x, y]);
    StripIdentity(name);
    Whole(Texts(second));
    Associates(DropLast(Texts(first)), DropLast(Texts(second)), [Last(second).text]);
  }

  /** A question mark after arguments makes a test command of the closed ones, accepted when exactly
      one character follows; commas after it separate nothing. */
  lemma AskedAssignment(name: string, args: seq<Arg>, t: string)
    requires CleanName(name) && |name| >= 3 && Free(t, DELIMS) && CleanForm(Assignment(args))
    ensures var s := name + (['='] + (Join(PrintArgs(args), ',') + (['?'] + t)));
            Parse(s, |s|) == Some(Command(name, if |t| == 1 then Test else Undefined, DropLast(Texts(args))))
  {
    var x := Join(PrintArgs(args), ',');
    var s := name + (['='] + (x + (['?'] + t)));
    StretchArgsOnly(args);
    ThreeStretches(name, '=', x, '?', t);
    StripIdentity(name);
    MarkAfter(name, x, t);
    AssembleAsked(DelimsOf(s), Split(s, DELIMS), |name| + 1 + |x|, |s|);
    assert |s| == |name| + |x| + |t| + 2;
  }

  lemma AssembleAsked(ds: string, stretches: seq<string>, mark: nat, len: nat)
    requires |ds| == 2 && ds[0] == '=' && ds[1] == '?' && |stretches| == 3 && mark > 0
    ensures Assemble(ds, stretches, mark, len)
         == Command(Strip(stretches[0]), if mark == len - 2 then Test else Undefined,
                    StripAll(DropLast(Split(stretches[1], COMMA))))
  {
    AssembleTwo(ds, stretches);
    var args := StripAll(DropLast(Split(stretches[1], COMMA)));
    assert args + [] == args;
  }

  lemma MarkAfter(name: string, x: string, t: string)
    requires |name| > 0 && Free(name, DELIMS) && Free(x, DELIMS)
    ensures QueryMark(name + (['='] + (x + (['?'] + t)))) == |name| + 1 + |x|
  {
    var s := name + (['='] + (x + (['?'] + t)));
    var mark := |name| + 1 + |x|;
    assert s[mark] == '?';
    forall j | 0 < j < mark ensures s[j] != '?' {
      if j < |name| {
        assert s[j] == name[j] && name[j] in name;
      } else if j > |name| {
        assert s[j] == x[j - |name| - 1] && x[j - |name| - 1] in x;
      }
    }
    QueryMarkAt(s, mark);
  }

  /** A printed assignment overruns argv exactly when it has more than thirty arguments, not counting
      an empty last one. */
  lemma PrintedOverruns(name: string, args: seq<Arg>, t: string)
    requires CleanName(name) && |name| >= 3 && Terminator(t) && CleanForm(Assignment(args))
    ensures var s := Print(name, Assignment(args)) + t;
            Overruns(s, |s|) <==> |args| > if Last(args).text == "" then 31 else 30
  {
    RoundTrip(name, Assignment(args), t);
  }

  function Commas(s: string): nat {
    if |s| == 0 then 0 else Commas(DropLast(s)) + if Last(s) == ',' then 1 else 0
  }

  lemma {:induction false} CommasBoundArgs(s: string)
    ensures |ReadAll(s).args| <= Commas(s)
  {
    if |s| > 0 {
      CommasBoundArgs(DropLast(s));
    }
  }

  /** No line of fewer than thirty commas overruns argv. */
  lemma FewCommasFit(s: string, len: nat)
    ensures Overruns(s, len) ==> Commas(s) >= MSG_MAX_ARGS - 2
  {
    if len > 2 {
      CommasBoundArgs(s);
      FinishParses(s, len);
    }
  }

  // ----- Printed tokens and the buffer

  /** No token outgrows the buffer while x is read after a. */
  ghost predicate FitsFrom(a: string, x: string) {
    forall n :: 0 <= n <= |x| ==> |ReadAll(a + x[..n]).token| < MSG_BUF_SIZE
  }

  lemma FitsConcat(a: string, x: string, y: string)
    requires FitsFrom(a, x) && FitsFrom(a + x, y)
    ensures FitsFrom(a, x + y)
  {
    forall n | 0 <= n <= |x + y| ensures |ReadAll(a + (x + y)[..n]).token| < MSG_BUF_SIZE {
      if n <= |x| {
        assert (x + y)[..n] == x[..n];
      } else {
        assert a + (x + y)[..n] == (a + x) + y[..n - |x|];
      }
    }
  }

  lemma ReadSnoc(s: string, c: char)
    ensures ReadAll(s + [c]) == ReadChar(ReadAll(s), c, |s|)
  {
    Unsnoc(s, c);
  }

  lemma PlainChar(a: string, c: char)
    requires c !in DELIMS && c != ','
    ensures ReadAll(a + [c]) == if Deleted(c) then ReadAll(a) else ReadAll(a).(token := ReadAll(a).token + [c])
  {
    ReadSnoc(a, c);
  }

  /** Text without a separator lengthens the token by what is visible of it. */
  lemma {:induction false} PlainToken(a: string, x: string)
    requires SeparatorFree(x)
    ensures |ReadAll(a + x).token| == |ReadAll(a).token| + |Strip(x)| && ReadAll(a + x).kind == ReadAll(a).kind
  {
    if |x| == 0 {
      assert a + x == a;
    } else {
      var x0, c := DropLast(x), Last(x);
      assert c in x && forall d <- x0 :: d in x;
      PlainToken(a, x0);
      assert a + x == (a + x0) + [c];
      PlainChar(a + x0, c);
    }
  }

  lemma PrefixFits(a: string, y: string, z: string)
    requires SeparatorFree(y) && |ReadAll(a).token| + |Strip(y + z)| < MSG_BUF_SIZE
    ensures |ReadAll(a + y).token| < MSG_BUF_SIZE
  {
    PlainToken(a, y);
    StripConcat(y, z);
  }

  lemma PlainFits(a: string, x: string)
    requires SeparatorFree(x) && |ReadAll(a).token| + |Strip(x)| < MSG_BUF_SIZE
    ensures FitsFrom(a, x)
  {
    forall n | 0 <= n <= |x| ensures |ReadAll(a + x[..n]).token| < MSG_BUF_SIZE {
      assert x == x[..n] + x[n..];
      PrefixFits(a, x[..n], x[n..]);
    }
  }

  /** A separator empties the token. */
  lemma SeparatorFits(a: string, c: char)
    requires |ReadAll(a).token| < MSG_BUF_SIZE && (c == '=' || (c == ',' && ReadAll(a).kind == Write))
    ensures FitsFrom(a, [c]) && |ReadAll(a + [c]).token| == 0 && ReadAll(a + [c]).kind == Write
  {
    ReadSnoc(a, c);
    forall n | 0 <= n <= 1 ensures |ReadAll(a + [c][..n]).token| < MSG_BUF_SIZE {
      if n == 0 {
        assert a + [c][..n] == a;
      } else {
        assert [c][..n] == [c];
      }
    }
  }

  lemma {:induction false} FieldsFit(a: string, fields: seq<string>)
    requires fields != [] && |ReadAll(a).token| == 0 && ReadAll(a).kind == Write
    requires forall i :: 0 <= i < |fields| ==> SeparatorFree(fields[i]) && |Strip(fields[i])| < MSG_BUF_SIZE
    ensures var s := Join(fields, ',');
            FitsFrom(a, s) && |ReadAll(a + s).token| < MSG_BUF_SIZE && ReadAll(a + s).kind == Write
  {
    if |fields| == 1 {
      PlainFits(a, fields[0]);
      PlainToken(a, fields[0]);
    } else {
      FieldsFit(a, DropLast(fields));
      FieldFits(a, Join(DropLast(fields), ','), Last(fields));
    }
  }

  /** A comma and one more field. */
  lemma FieldFits(a: string, before: string, field: string)
    requires FitsFrom(a, before) && |ReadAll(a + before).token| < MSG_BUF_SIZE && ReadAll(a + before).kind == Write
    requires SeparatorFree(field) && |Strip(field)| < MSG_BUF_SIZE
    ensures var s := before + [','] + field;
            FitsFrom(a, s) && |ReadAll(a + s).token| < MSG_BUF_SIZE && ReadAll(a + s).kind == Write
  {
    var start := a + before + [','];
    SeparatorFits(a + before, ',');
    PlainFits(start, field);
    PlainToken(start, field);
    FitsConcat(a + before, [','], field);
    FitsConcat(a, before, [','] + field);
    Associates(before, [','], field);
    assert a + (before + [','] + field) == start + field;
  }

  lemma FitsWhole(s: string)
    requires FitsFrom(s[..0], s)
    ensures TokensFit(s)
  {
    forall n | 0 <= n <= |s| ensures |ReadAll(s[..n]).token| < MSG_BUF_SIZE {
      assert s[..0] + s[..n] == s[..n];
    }
  }

  /** A name, an "=", and a stretch that fits after them. */
  lemma AssignmentFits(name: string, s: string)
    requires SeparatorFree(name) && |name| < MSG_BUF_SIZE && FitsFrom(name + ['='], s)
    ensures TokensFit(name + (['='] + s))
  {
    var text := name + (['='] + s);
    var none := text[..0];
    assert none + name == name;
    PlainFits(none, name);
    PlainToken(none, name);
    SeparatorFits(name, '=');
    FitsConcat(name, ['='], s);
    FitsConcat(none, name, ['='] + s);
    FitsWhole(text);
  }

  lemma ArgsFit(args: seq<Arg>)
    requires forall i :: 0 <= i < |args| ==> CleanArg(args[i].text) && |args[i].text| < MSG_BUF_SIZE
    ensures forall i :: 0 <= i < |args| ==>
              SeparatorFree(PrintArgs(args)[i]) && |Strip(PrintArgs(args)[i])| < MSG_BUF_SIZE
  {
    forall i | 0 <= i < |args|
      ensures SeparatorFree(PrintArgs(args)[i]) && |Strip(PrintArgs(args)[i])| < MSG_BUF_SIZE
    {
      StripArg(args[i]);
    }
  }

  lemma StretchFits(a: string, fields: seq<string>, t: string)
    requires fields != [] && |ReadAll(a).token| == 0 && ReadAll(a).kind == Write && Terminator(t)
    requires forall i :: 0 <= i < |fields| ==> SeparatorFree(fields[i]) && |Strip(fields[i])| < MSG_BUF_SIZE
    ensures FitsFrom(a, Join(fields, ',') + t)
  {
    FieldsFit(a, fields);
    StripDeleted(t);
    PlainFits(a + Join(fields, ','), t);
    FitsConcat(a, Join(fields, ','), t);
  }

  /** A printed assignment fits the buffer when its name and each of its arguments do. */
  lemma PrintedFits(name: string, args: seq<Arg>, t: string)
    requires CleanName(name) && ',' !in name && |name| < MSG_BUF_SIZE && Terminator(t)
    requires CleanForm(Assignment(args)) && forall i :: 0 <= i < |args| ==> |args[i].text| < MSG_BUF_SIZE
    ensures TokensFit(Print(name, Assignment(args)) + t)
  {
    var fields := PrintArgs(args);
    ArgsFit(args);
    ReadSnoc(name, '=');
    StretchFits(name + ['='], fields, t);
    AssignmentFits(name, Join(fields, ',') + t);
    PrintedIs(name, args, t);
  }
}
