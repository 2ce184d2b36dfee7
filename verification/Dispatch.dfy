/** Which command takes a line (core/src/CompositeMessageParser.cpp, core/src/MessageParser.cpp). */
module Dispatch {
  import opened Text
  import opened Limits
  import opened World
  import C = AtCommandParser

  /** Test commands without a handler are not consumed. */
  predicate Declines(c: Command, kind: C.Kind) {
    kind == C.Test && (c == Cgdcont || c == Xgauth || c == Cgact)
  }

  /** The first child that knows the name and does not decline. */
  function Taken(children: seq<Extension>, parsed: C.Command): Option<Command> {
    if |children| == 0 then None
    else
      var c := FindCommand(Commands(children[0]), parsed.name);
      if c.Some? && !Declines(c.value, parsed.kind) then c else Taken(children[1..], parsed)
  }

  lemma TestConsumedUnlessDeclined(c: Command, w: World)
    ensures ExecuteAsTest(c, w).consumed <==> !Declines(c, C.Test)
    ensures Declines(c, C.Test) ==> ExecuteAsTest(c, w) == Outcome(w, false)
  {
  }

  lemma QueryConsumed(c: Command, w: World, env: Env)
    ensures ExecuteAsQuery(c, w, env).consumed
  {
  }

  lemma WriteConsumed(c: Command, args: seq<string>, w: World, env: Env)
    ensures ExecuteAsWrite(c, args, w, env).consumed
  {
  }

  lemma ConsumedUnlessDeclined(c: Command, parsed: C.Command, w: World, env: Env)
    ensures Execute(c, parsed, w, env).consumed <==> !Declines(c, parsed.kind)
    ensures Declines(c, parsed.kind) ==> Execute(c, parsed, w, env) == Outcome(w, false)
  {
    TestConsumedUnlessDeclined(c, w);
    QueryConsumed(c, w, env);
    WriteConsumed(c, parsed.args, w, env);
  }

  /** A command that is taken is executed by exactly one handler. */
  lemma {:induction false} TakenExecutes(children: seq<Extension>, parsed: C.Command, w: World, env: Env)
    ensures CommandChildren(children, parsed, w, env)
         == match Taken(children, parsed)
            case Some(c) => Execute(c, parsed, w, env)
            case None => Outcome(w, false)
  {
    if |children| > 0 {
      var c := FindCommand(Commands(children[0]), parsed.name);
      if c.Some? {
        ConsumedUnlessDeclined(c.value, parsed, w, env);
      }
      TakenExecutes(children[1..], parsed, w, env);
    }
  }

  /** smmcore_cmd_process executes the taken command, if the line is short enough for one. */
  function TakenFrom(children: seq<Extension>, text: string, len: nat): Option<(Command, C.Command)> {
    var parsed := C.Parse(text, len);
    if len > MAX_SMM_MESSAGE_SIZE || parsed == None then None
    else
      var c := Taken(children, parsed.value);
      if c.Some? then Some((c.value, parsed.value)) else None
  }

  lemma ReceiveExecutes(children: seq<Extension>, text: string, len: nat, w: World, env: Env)
    ensures ReceiveCommand(children, text, len, w, env)
         == match TakenFrom(children, text, len)
            case Some((c, parsed)) => Execute(c, parsed, w, env)
            case None => Outcome(w, false)
  {
    var parsed := C.Parse(text, len);
    if parsed.Some? {
      TakenExecutes(children, parsed.value, w, env);
    }
  }

  // ----- The two commands that reach the record

  /** No Atsample command has the length of these names. */
  lemma PersistentNames(e: Extension, c: Command)
    requires c == Cgdcont || c == Xgauth
    ensures FindCommand(Commands(e), Name(c)) == if e == Netconf then Some(c) else None
  {
    var all := Commands(e);
    if e == Netconf {
      FindNext(all, Name(c));
      FindNext(all[1..], Name(c));
      FindNext(all[1..][1..], Name(c));
      assert all[1..][1..][0] == Cgdcont;
      if c == Xgauth {
        var rest := all[1..][1..][1..];
        FindNext(rest, Name(c));
        FindNext(rest[1..], Name(c));
        FindNext(rest[1..][1..], Name(c));
        assert rest[1..][1..][0] == Xgauth;
      }
    } else {
      NoSuchLength(all, Name(c));
    }
  }

  lemma FindNext(commands: seq<Command>, name: string)
    requires |commands| > 0
    ensures FindCommand(commands, name) ==
            if EqualsIgnoreCase(name, Name(commands[0])) then Some(commands[0]) else FindCommand(commands[1..], name)
  {
  }

  lemma {:induction false} NoSuchLength(commands: seq<Command>, name: string)
    requires forall i :: 0 <= i < |commands| ==> |Name(commands[i])| != |name|
    ensures FindCommand(commands, name) == None
  {
    if |commands| > 0 {
      NoSuchLength(commands[1..], name);
    }
  }

  lemma {:induction false} PersistentTaken(children: seq<Extension>, parsed: C.Command, c: Command)
    requires Netconf in children && (c == Cgdcont || c == Xgauth)
    requires parsed.name == Name(c) && parsed.kind != C.Test
    ensures Taken(children, parsed) == Some(c)
  {
    PersistentNames(children[0], c);
    if children[0] != Netconf {
      assert Netconf in children[1..];
      PersistentTaken(children[1..], parsed, c);
    }
  }

  lemma PersistentTakenFrom(children: seq<Extension>, text: string, parsed: C.Command, c: Command)
    requires Netconf in children && (c == Cgdcont || c == Xgauth)
    requires C.Parse(text, |text|) == Some(parsed) && parsed.name == Name(c) && parsed.kind != C.Test
    ensures TakenFrom(children, text, |text|) == if |text| > MAX_SMM_MESSAGE_SIZE then None else Some((c, parsed))
  {
    PersistentTaken(children, parsed, c);
  }

  lemma CleanNames(c: Command)
    requires c == Cgdcont || c == Xgauth
    ensures C.CleanName(Name(c)) && ',' !in Name(c) && 3 <= |Name(c)| <= 10
  {
  }
}
