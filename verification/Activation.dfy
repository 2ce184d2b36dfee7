/** One activation or deactivation from AT+CGACT to its final result. */
module Activation {
  import opened Text
  import opened DcContexts
  import opened DataCalls
  import opened World

  predicate Activates(args: seq<string>, env: Env) {
    |args| >= 2 && env.number(args[0]) == 1
  }

  predicate Deactivates(args: seq<string>, env: Env) {
    |args| >= 2 && env.number(args[0]) != 1
  }

  /** The handler sent a request and waits. */
  predicate Waits(args: seq<string>, w: World, env: Env) {
    CgactWrite(args, w, env).world.pending != w.pending
  }

  /** A request goes out exactly when the proxy is registered, the state of context 0 would
      change, its type is known when activating, and the modem interface takes the request. The
      cid argument plays no part. */
  lemma WaitsExactly(args: seq<string>, w: World, env: Env)
    ensures Waits(args, w, env) <==>
            && |args| >= 2 && w.rat != NoRat && env.sendOk
            && (Activates(args, env) <==> !Dc0(w).activated)
            && (Activates(args, env) ==> Dc0(w).pdpType in IP_TYPES)
  {
    if Waits(args, w, env) {
      assert |CgactWrite(args, w, env).world.pending| == |w.pending| + 1;
    } else if |args| >= 2 && w.rat != NoRat && env.sendOk && Dc0(w).activated != Activates(args, env) {
      assert |w.pending + [PendingCgact]| != |w.pending|;
    }
  }

  /** The host gets its one OK when the modem interface reports success, but context 0 is active
      then exactly when the reported call is up and belongs to context 0; in that case, and only
      then, tethering is established for it and repeating the command is answered at once. */
  lemma ActivationCompletes(args: seq<string>, w: World, env: Env, call: DataCall)
    requires |w.calls.dcs| > 0 && Activates(args, env) && Waits(args, w, env)
    ensures var asked := CgactWrite(args, w, env).world;
            var done := OnDataCallSetup(asked, true, call);
            && done.pending == w.pending && done.host == w.host + [OK_TEXT]
            && (Dc0(done).activated <==> call.up && Fits(Dc0(w), call.cid))
            && (Dc0(done).activated <==>
                  done.calls.events ==
                  w.calls.events + [Established(0, call.cid, call.interfaceName, "8.8.8.8", "8.8.8.8")])
            && (Dc0(done).activated <==> CgactWrite(args, done, env) == Reply(done, OK_TEXT))
  {
    WaitsExactly(args, w, env);
    var asked := CgactWrite(args, w, env).world;
    assert DropLast(w.pending + [PendingCgact]) == w.pending;
    var done := OnDataCallSetup(asked, true, call);
    var i := FindFrom(w.calls.dcs, call.cid, 0);
    assert i == 0 <==> Fits(Dc0(w), call.cid);
    if !Dc0(done).activated {
      ReplyIsNoRequest(args, done, env);
      NoSuchEvent(w.calls, call);
    }
  }

  /** While context 0 is inactive, activating again is not answered with OK. */
  lemma ReplyIsNoRequest(args: seq<string>, w: World, env: Env)
    requires Activates(args, env) && w.rat != NoRat && !Dc0(w).activated
    ensures CgactWrite(args, w, env) != Reply(w, OK_TEXT)
  {
    if RequestFor(true, w).Some? && env.sendOk {
      assert |CgactWrite(args, w, env).world.pending| != |Reply(w, OK_TEXT).world.pending|;
    } else {
      assert Last(Say(w, ERROR_TEXT).host) == ERROR_TEXT && Last(Say(w, OK_TEXT).host) == OK_TEXT;
    }
  }

  lemma NoSuchEvent(c: Calls, call: DataCall)
    requires |c.dcs| > 0 && !c.dcs[0].activated && !Update(c, call).dcs[0].activated
    ensures Update(c, call).events != c.events + [Established(0, call.cid, call.interfaceName, "8.8.8.8", "8.8.8.8")]
  {
    var added := Established(0, call.cid, call.interfaceName, "8.8.8.8", "8.8.8.8");
    var events := Update(c, call).events;
    if FindFrom(c.dcs, call.cid, 0) == 0 {
      assert |events| == |c.events|;
    } else if |events| > |c.events| {
      assert Last(events) != added;
    }
    assert Last(c.events + [added]) == added;
  }

  /** A refused setup changes no context and answers ERROR. */
  lemma ActivationFails(args: seq<string>, w: World, env: Env, call: DataCall)
    requires Waits(args, w, env)
    ensures var done := OnDataCallSetup(CgactWrite(args, w, env).world, false, call);
            done.pending == w.pending && done.host == w.host + [ERROR_TEXT] && done.calls == w.calls
  {
    WaitsExactly(args, w, env);
    assert DropLast(w.pending + [PendingCgact]) == w.pending;
  }

  /** A successful release answers OK but leaves context 0 active: until the modem reports the
      call down, deactivating again sends another request. */
  lemma ReleaseLeavesActive(args: seq<string>, w: World, env: Env)
    requires Deactivates(args, env) && Waits(args, w, env)
    ensures var done := OnDataCallReleased(CgactWrite(args, w, env).world, true);
            && done.pending == w.pending && done.host == w.host + [OK_TEXT] && done.calls == w.calls
            && Dc0(done).activated && Waits(args, done, env)
            && Last(done.ril) == DeactivateDataCall(Dc0(w).cid % 256)
  {
    WaitsExactly(args, w, env);
    assert DropLast(w.pending + [PendingCgact]) == w.pending;
    WaitsExactly(args, OnDataCallReleased(CgactWrite(args, w, env).world, true), env);
  }

  /** While context 0 is active, deactivating is not answered with OK at once. */
  lemma ReleaseIsNoReply(args: seq<string>, w: World, env: Env)
    requires Deactivates(args, env) && w.rat != NoRat && Dc0(w).activated
    ensures CgactWrite(args, w, env) != Reply(w, OK_TEXT)
  {
    if env.sendOk {
      assert |CgactWrite(args, w, env).world.pending| != |Reply(w, OK_TEXT).world.pending|;
    } else {
      assert Last(Say(w, ERROR_TEXT).host) == ERROR_TEXT && Last(Say(w, OK_TEXT).host) == OK_TEXT;
    }
  }

  /** A report makes an active context 0 inactive exactly when it says that the call is down and
      fits context 0; exactly then it stops tethering for it, and the next release is a no-op. */
  lemma ReportEndsRelease(args: seq<string>, w: World, env: Env, call: DataCall)
    requires |w.calls.dcs| > 0 && Dc0(w).activated && w.rat != NoRat && Deactivates(args, env)
    ensures var after := OnDataCallListChanged(w, [call]);
            var ends := !call.up && Fits(Dc0(w), call.cid);
            && (!Dc0(after).activated <==> ends)
            && (after.calls.events == w.calls.events + [Terminated(0, call.cid, call.interfaceName)] <==> ends)
            && (CgactWrite(args, after, env) == Reply(after, OK_TEXT) <==> ends)
  {
    assert |DropLast([call])| == 0;
    assert UpdateAll(w.calls, [call]) == Update(w.calls, call);
    var after := OnDataCallListChanged(w, [call]);
    var added := Terminated(0, call.cid, call.interfaceName);
    var i := FindFrom(w.calls.dcs, call.cid, 0);
    assert i == 0 <==> Fits(Dc0(w), call.cid);
    if i == 0 {
      assert Edge(0, true, Fill(w.calls.dcs[0], call), call) == if call.up then [] else [added];
    }
    if !Fits(Dc0(w), call.cid) || call.up {
      ReleaseIsNoReply(args, after, env);
      OtherEvent(w.calls, call);
    }
  }

  lemma OtherEvent(c: Calls, call: DataCall)
    requires |c.dcs| > 0 && c.dcs[0].activated && Update(c, call).dcs[0].activated
    ensures Update(c, call).events != c.events + [Terminated(0, call.cid, call.interfaceName)]
  {
    var added := Terminated(0, call.cid, call.interfaceName);
    var events := Update(c, call).events;
    if FindFrom(c.dcs, call.cid, 0) == 0 {
      assert |events| == |c.events|;
    } else if |events| > |c.events| {
      assert Last(events) != added;
    }
    assert Last(c.events + [added]) == added;
  }
}
