/** How long the records of AT+CGDCONT and AT+XGAUTH get (core/src/NetconfLinuxPersistence.cpp). */
module RecordBounds {
  import opened Text
  import opened Scanf
  import opened DcContexts
  import opened Persistence
  import opened Recovery
  import opened DataCalls
  import opened World
  import opened Dispatch
  import P = Protocol
  import S = Sessions
  import C = AtCommandParser
  import Runs = ContextRuns

  /** The length of the longest fields that the commands themselves admit: 11 for each number,
      127 for the name, 6 for the type, 64 for each credential. */
  const BOUND := 319

  /** What this leaves for mode and credentials beside the longest definition. */
  const CREDENTIALS_BOUND := 139

  /** A proxy that starts without a record. */
  const EMPTY := Runs.Store(FRESH, None)

  // ----- What a run prints

  /** The context a step prints, if it stores. */
  function Stored(st: Runs.Store, s: Runs.Step): Option<Dc> {
    match s
    case DefineStep(cid, pdpType, apn, io) =>
      if io.storeOk then Some(Runs.Refresh(st, io.junk).dc.(cid := cid, pdpType := pdpType, apn := apn)) else None
    case AuthenticateStep(cid, mode, name, pwd, io) =>
      var dc := Runs.Refresh(st, io.junk).dc;
      if io.storeOk && dc.cid != -1 && dc.cid == cid then
        Some(dc.(authMode := mode, authName := name, authPwd := pwd))
      else None
    case _ => None
  }

  /** A definition within its buffers, or the fields of a report, or nothing yet. */
  predicate Bounded(dc: Dc) {
    && Runs.IsInt32(dc.cid) && |dc.apn| <= Runs.TOKEN_LEN && '\0' !in dc.apn && '=' !in dc.apn
    && (dc.pdpType == "" || dc.pdpType in IP_TYPES)
  }

  /** Text as the tokeniser and the modem deliver it: no "=" in a name, and interface names that a
      token could hold. */
  predicate Delivered(s: Runs.Step) {
    match s
    case DefineStep(_, _, apn, _) => '=' !in apn
    case ReportStep(call) =>
      && Runs.IsInt32(call.cid) && |call.interfaceName| <= Runs.TOKEN_LEN
      && '\0' !in call.interfaceName && '=' !in call.interfaceName
    case _ => true
  }

  /** Memory is bounded, and so is the record in the file, if any. */
  predicate Sound(st: Runs.Store, stored: Option<Dc>, m: nat) {
    && Runs.AuthBounded(st.dc, m) && Bounded(st.dc)
    && match stored
       case Some(dc) => st.file.Some? && Record(dc) <= st.file.value && Bounded(dc) && Runs.AuthBounded(dc, m)
       case None => st.file == None
  }

  lemma BoundedIsStorable(dc: Dc, m: nat)
    requires Bounded(dc) && Runs.AuthBounded(dc, m) && m <= Runs.TOKEN_LEN
    ensures Storable(dc) && |Record(dc)| <= 191 + 2 * m < BUF_SIZE && |dc.pdpType| <= 6
    ensures dc.pdpType != "" ==> Clean(dc.pdpType) && '=' !in dc.pdpType
  {
    if dc.pdpType != "" {
      Runs.IpTypesClean(dc.pdpType);
    }
    Runs.RecordNulFree(dc);
    Runs.RecordBound(dc, m);
  }

  /** The context a load leaves, when the file starts with this record, if any. */
  function Found(st: Runs.Store, stored: Option<Dc>, junk: string): Dc
    requires stored.Some? ==>
               st.file.Some? && |Record(stored.value)| <= |st.file.value| && |Record(stored.value)| < BUF_SIZE
  {
    if stored.Some? && Readable(stored.value.apn) && stored.value.pdpType != "" then
      Loaded(st.dc, stored.value.(apn := FirstWord(stored.value.apn)), Tail(st.file.value, stored.value, junk))
    else st.dc
  }

  lemma RefreshFinds(st: Runs.Store, stored: Option<Dc>, junk: string, m: nat)
    requires Sound(st, stored, m) && m <= Runs.TOKEN_LEN
    ensures stored.Some? ==> |Record(stored.value)| < BUF_SIZE
    ensures Runs.Refresh(st, junk).dc == Found(st, stored, junk) && Bounded(Runs.Refresh(st, junk).dc)
  {
    if stored.Some? {
      BoundedIsStorable(stored.value, m);
      LoadAnyExactly(st.dc, stored.value, st.file.value, junk);
      FirstWordIsPart(stored.value.apn);
    }
  }

  lemma SaveSound(st: Runs.Store, io: Runs.Io, m: nat)
    requires io.storeOk && Bounded(st.dc) && Runs.AuthBounded(st.dc, m) && m <= Runs.TOKEN_LEN
    ensures Sound(Runs.Save(st, io).store, Some(st.dc), m)
  {
    BoundedIsStorable(st.dc, m);
  }

  lemma StepSound(st: Runs.Store, s: Runs.Step, stored: Option<Dc>, m: nat) returns (after: Option<Dc>)
    requires Sound(st, stored, m) && Runs.StepOk(s) && Runs.StepFits(st, s, m) && Delivered(s)
    requires Runs.AUTH_NAME_PWD_LEN <= m <= Runs.TOKEN_LEN
    ensures Sound(Runs.Apply(st, s).store, after, m)
    ensures Stored(st, s).Some? ==> Bounded(Stored(st, s).value) && Runs.AuthBounded(Stored(st, s).value, m)
  {
    Runs.StepBounded(st, s, m);
    after := stored;
    match s
    case QueryStep(junk) => RefreshFinds(st, stored, junk, m);
    case ReportStep(_) =>
    case _ =>
      RefreshFinds(st, stored, s.io.junk, m);
      Runs.RefreshBounded(st, s.io.junk, m);
      if Stored(st, s).Some? {
        after := Stored(st, s);
        SaveSound(Runs.Refresh(st, s.io.junk).(dc := after.value), s.io, m);
      }
  }

  lemma {:induction false} RunSound(st: Runs.Store, steps: seq<Runs.Step>, m: nat) returns (stored: Option<Dc>)
    requires st == EMPTY && Runs.RunOk(st, steps, m) && Runs.AUTH_NAME_PWD_LEN <= m <= Runs.TOKEN_LEN
    requires forall s <- steps :: Delivered(s)
    ensures Sound(Runs.Run(st, steps), stored, m)
  {
    if |steps| == 0 {
      stored := None;
    } else {
      var before := DropLast(steps);
      assert Last(steps) in steps && forall s <- before :: s in steps;
      var stored0 := RunSound(st, before, m);
      stored := StepSound(Runs.Run(st, before), Last(steps), stored0, m);
    }
  }

  /** From an empty file, no record of a run is longer than 191 + 2m characters, when no load read
      more than m characters into a variable: never more than 445, so the print fits its buffer. */
  lemma EveryRecordFits(steps: seq<Runs.Step>, m: nat)
    requires |steps| > 0 && Runs.RunOk(EMPTY, steps, m) && Runs.AUTH_NAME_PWD_LEN <= m <= Runs.TOKEN_LEN
    requires forall s <- steps :: Delivered(s)
    ensures var dc := Stored(Runs.Run(EMPTY, DropLast(steps)), Last(steps));
            dc.Some? ==> |Record(dc.value)| <= 191 + 2 * m < BUF_SIZE
  {
    var before := DropLast(steps);
    assert Last(steps) in steps && forall s <- before :: s in steps;
    var stored := RunSound(EMPTY, before, m);
    var after := StepSound(Runs.Run(EMPTY, before), Last(steps), stored, m);
    var dc := Stored(Runs.Run(EMPTY, before), Last(steps));
    if dc.Some? {
      BoundedIsStorable(dc.value, m);
    }
  }

  /** Nobody need have typed the credentials of a record: after one CGDCONT on an empty file, memory
      that happens to spell a password field becomes the password of the next record. */
  lemma MemoryBecomesCredentials(cid: int, pdpType: string, apn: string, first: Runs.Io, second: Runs.Io, word: string)
    requires Runs.StepOk(Runs.DefineStep(cid, pdpType, apn, first)) && Clean(apn) && first.storeOk && second.storeOk
    requires Clean(word) && '\0' !in word && second.junk == "pwd=" + word
    ensures var steps := [Runs.DefineStep(cid, pdpType, apn, first)];
            var dc := Stored(Runs.Run(EMPTY, steps), Runs.DefineStep(cid, pdpType, apn, second));
            dc.Some? && dc.value.authName == "pwd=" && dc.value.authPwd == word
  {
    var stored := FRESH.(cid := cid, pdpType := pdpType, apn := apn);
    var steps := [Runs.DefineStep(cid, pdpType, apn, first)];
    assert Runs.Run(EMPTY, DropLast(steps)) == EMPTY;
    Runs.BoundedIsLoadable(stored, 0);
    FileIsRecord(EMPTY, stored, first.memory);
    TailIsJunk(stored, second.junk);
    LoadExactly(stored, stored, Record(stored), second.junk);
    MemoryRead(word);
    LeftByCases(("", ""), stored, second.junk);
  }

  lemma MemoryRead(word: string)
    requires Clean(word)
    ensures ReadPwd(PWD + word) == Some(word)
  {
    var tail := PWD + word;
    assert SkipWhite(tail) == tail && tail[|PWD|..] == word;
    CleanWord(word);
  }

  // ----- Commands that follow

  /** A command whose load finds this memory behind the file. */
  predicate Following(s: Runs.Step, junk: string) {
    (s.DefineStep? || s.AuthenticateStep?) && Runs.StepOk(s) && Delivered(s) && s.io.junk == junk
  }

  predicate StoresWithin(st: Runs.Store, s: Runs.Step) {
    var dc := Stored(st, s);
    dc.Some? ==> |Record(dc.value)| <= BOUND
  }

  // ----- The longest definition

  lemma {:induction false} DecNatAtLeast(n: nat, k: nat)
    requires n >= Runs.Pow10(k)
    ensures |DecNat(n)| > k
  {
    if k > 0 {
      DecNatAtLeast(n / 10, k - 1);
    }
  }

  function Longest(junk: string): Runs.Step {
    Runs.DefineStep(-0x8000_0000, "IPV4V6", seq(Runs.TOKEN_LEN, _ => 'x'), Runs.Io(junk, "", true))
  }

  lemma LongestIs(junk: string)
    ensures Following(Longest(junk), junk) && |Dec(Longest(junk).cid)| == 11
  {
    var s := Longest(junk);
    assert "IPV4V6" in IP_TYPES && forall c <- s.apn :: c == 'x';
    assert Runs.Pow10(5) == 100_000;
    assert Runs.Pow10(9) == 1_000_000_000;
    DecNatAtLeast(0x8000_0000, 9);
    Runs.DecLength(s.cid);
  }

  // ----- The next record, exactly

  /** Every record the next command can store is within the bound exactly when mode, name and
      password, as the load leaves them, are: only AT+CGDCONT can exceed it, since AT+XGAUTH
      replaces them. */
  lemma NextFitsExactly(st: Runs.Store, junk: string)
    requires Bounded(Runs.Refresh(st, junk).dc)
    ensures var dc := Runs.Refresh(st, junk).dc;
            (forall s :: Following(s, junk) ==> StoresWithin(st, s)) <==>
            |Dec(dc.authMode)| + |dc.authName| + |dc.authPwd| <= CREDENTIALS_BOUND
  {
    var dc := Runs.Refresh(st, junk).dc;
    if |Dec(dc.authMode)| + |dc.authName| + |dc.authPwd| <= CREDENTIALS_BOUND {
      forall s | Following(s, junk) ensures StoresWithin(st, s) {
        if Stored(st, s).Some? {
          StoredLength(st, s);
        }
      }
    } else {
      var s := Longest(junk);
      LongestIs(junk);
      StoredLength(st, s);
      assert !StoresWithin(st, s);
    }
  }

  /** Length of what a command stores, given what it loaded. */
  lemma StoredLength(st: Runs.Store, s: Runs.Step)
    requires (s.DefineStep? || s.AuthenticateStep?) && Runs.StepOk(s) && Stored(st, s).Some?
    requires Bounded(Runs.Refresh(st, s.io.junk).dc)
    ensures var dc := Runs.Refresh(st, s.io.junk).dc;
            var n := |Record(Stored(st, s).value)|;
            if s.DefineStep? then
              && n == 36 + |Dec(s.cid)| + |s.apn| + |s.pdpType| + |Dec(dc.authMode)| + |dc.authName| + |dc.authPwd|
              && |Dec(s.cid)| + |s.apn| + |s.pdpType| <= 144
            else n <= BOUND
  {
    var dc := Stored(st, s).value;
    Runs.RecordLength(dc);
    Runs.DecLength(dc.cid);
    if s.AuthenticateStep? {
      Runs.DecLength(s.mode);
    }
  }

  // ----- In every state a run from an empty file reaches

  /** From an empty file, after any run: every record the next command can store is within 319
      characters if and only if mode, name and password found in the record, its tail and memory
      together have at most 139. */
  lemma RecordsFitExactly(steps: seq<Runs.Step>, junk: string, m: nat) returns (stored: Option<Dc>)
    requires Runs.RunOk(EMPTY, steps, m) && Runs.AUTH_NAME_PWD_LEN <= m <= Runs.TOKEN_LEN
    requires forall s <- steps :: Delivered(s)
    ensures Sound(Runs.Run(EMPTY, steps), stored, m)
    ensures stored.Some? ==> |Record(stored.value)| < BUF_SIZE
    ensures var before := Runs.Run(EMPTY, steps);
            var dc := Found(before, stored, junk);
            (forall s :: Following(s, junk) ==> StoresWithin(before, s)) <==>
            |Dec(dc.authMode)| + |dc.authName| + |dc.authPwd| <= CREDENTIALS_BOUND
  {
    stored := RunSound(EMPTY, steps, m);
    RefreshFinds(Runs.Run(EMPTY, steps), stored, junk, m);
    NextFitsExactly(Runs.Run(EMPTY, steps), junk);
  }

  // ----- The same for the whole proxy

  /** A report with an interface name that a token could hold. */
  predicate ShortCall(call: DataCall) {
    Delivered(Runs.ReportStep(call))
  }

  predicate ShortReports(s: P.Step) {
    match s
    case SetupAnswer(_, call) => ShortCall(call)
    case CallList(calls) => forall i :: 0 <= i < |calls| ==> ShortCall(calls[i])
    case _ => true
  }

  lemma {:induction false} ListTraceDelivered(c: Calls, calls: seq<DataCall>)
    requires forall i :: 0 <= i < |calls| ==> ShortCall(calls[i])
    ensures forall s <- S.ListTrace(c, calls) :: Delivered(s)
  {
    if |calls| > 0 {
      ListTraceDelivered(c, DropLast(calls));
    }
  }

  lemma CommandTraceDelivered(c: Command, parsed: C.Command, env: Env)
    requires forall arg <- parsed.args :: C.SeparatorFree(arg)
    ensures forall s <- S.CommandTrace(c, parsed, env) :: Delivered(s)
  {
    forall i | 0 <= i < |parsed.args| ensures '=' !in parsed.args[i] {
      assert parsed.args[i] in parsed.args && '=' in C.DELIMS;
    }
  }

  /** The tokeniser lets no "=" into an argument. */
  lemma StepTraceDelivered(k: P.Config, w: World, s: P.Step)
    requires ShortReports(s)
    ensures forall t <- S.StepTrace(k, w, s) :: Delivered(t)
  {
    match s
    case HostCommand(text, len, env) =>
      var taken := TakenFrom(k.commands, text, len);
      if taken.Some? {
        C.ArgsFree(text, len);
        CommandTraceDelivered(taken.value.0, taken.value.1, env);
      }
    case CallList(calls) => ListTraceDelivered(w.calls, calls);
    case _ =>
  }

  lemma {:induction false} TraceDelivered(k: P.Config, w: World, steps: seq<P.Step>)
    requires forall s <- steps :: ShortReports(s)
    ensures forall t <- S.Trace(k, w, steps) :: Delivered(t)
  {
    if |steps| > 0 {
      assert Last(steps) in steps && forall s <- DropLast(steps) :: s in steps;
      TraceDelivered(k, w, DropLast(steps));
      StepTraceDelivered(k, P.Run(k, w, DropLast(steps)), Last(steps));
    }
  }

  /** After any run of the whole proxy that started without a record. */
  lemma ProxyRecordsFitExactly(k: P.Config, steps: seq<P.Step>, junk: string, m: nat) returns (stored: Option<Dc>)
    requires Runs.RunOk(EMPTY, S.Trace(k, P.INITIAL, steps), m) && Runs.AUTH_NAME_PWD_LEN <= m <= Runs.TOKEN_LEN
    requires forall s <- steps :: ShortReports(s)
    ensures var before := StoreOf(P.Run(k, P.INITIAL, steps));
            && Sound(before, stored, m) && (stored.Some? ==> |Record(stored.value)| < BUF_SIZE)
            && var dc := Found(before, stored, junk);
               ((forall s :: Following(s, junk) ==> StoresWithin(before, s)) <==>
                |Dec(dc.authMode)| + |dc.authName| + |dc.authPwd| <= CREDENTIALS_BOUND)
  {
    S.RunTraced(k, P.INITIAL, steps);
    TraceDelivered(k, P.INITIAL, steps);
    stored := RecordsFitExactly(S.Trace(k, P.INITIAL, steps), junk, m);
  }

  // ----- A run that exceeds the bound

  lemma RecordItems(stored: Dc, tail: string)
    requires Clean(stored.apn) && Clean(stored.pdpType)
    ensures Scan(FullFormat(), Definition(stored, Credentials(stored, tail))) ==
            [Number(stored.cid)] + ([Token(stored.apn)] + ([Token(stored.pdpType)] + ([Number(stored.authMode)]
            + ReadItems(stored.authName, stored.authPwd, tail))))
  {
    ScanDefinition(stored, CredentialsFormat(), Credentials(stored, tail));
    ScanCredentialsExactly(stored, tail);
  }

  /** A load of a record stays within m characters when its fields and the words read as name and
      password do. */
  lemma LoadFitsRecord(st: Runs.Store, stored: Dc, junk: string, m: nat)
    requires Runs.Holds(st.file, stored, m) && m == Runs.TOKEN_LEN && Loadable(stored)
    requires |ReadName(stored.authName, stored.authPwd)| <= m
    requires var word := ReadPassword(stored.authName, stored.authPwd, Tail(st.file.value, stored, junk));
             word.Some? ==> |word.value| <= m
    ensures Runs.LoadFits(st, junk, m)
  {
    var tail := Tail(st.file.value, stored, junk);
    BufferIs(stored, st.file.value, junk);
    RecordItems(stored, tail);
    Runs.IpTypesClean(stored.pdpType);
    forall item | item in Scan(FullFormat(), Buffer(st.file.value, junk)) ensures Runs.ItemFits(item, m) {
      assert item in [Number(stored.cid), Token(stored.apn), Token(stored.pdpType), Number(stored.authMode)]
                     || item in ReadItems(stored.authName, stored.authPwd, tail);
    }
  }

  /** What one store leaves in the file, when the record is not shorter than the file. */
  lemma FileIsRecord(st: Runs.Store, dc: Dc, memory: string)
    requires |Record(dc)| < BUF_SIZE && (st.file.Some? ==> |st.file.value| <= |Record(dc)|)
    ensures Overwrite(st.file, Written(Record(dc), memory)) == Record(dc)
  {
    assert Record(dc) + "" == Record(dc);
  }

  /** A definition, then a password without a name. */
  function WithoutName(pwd: string): seq<Runs.Step> {
    var io := Runs.Io("", "", true);
    [Runs.DefineStep(1, "IP", "x", io), Runs.AuthenticateStep(1, 0, "", pwd, io)]
  }

  const DEFINED := FRESH.(cid := 1, pdpType := "IP", apn := "x")

  lemma FirstIsOk(pwd: string)
    ensures Runs.StepOk(WithoutName(pwd)[0]) && Runs.DefinitionBounded(DEFINED)
  {
    var apn := "x";
    assert forall c <- apn :: c == 'x';
    assert "IP" in IP_TYPES;
  }

  lemma RunOkSnoc(st: Runs.Store, steps: seq<Runs.Step>, s: Runs.Step, m: nat)
    requires Runs.RunOk(st, steps, m) && Runs.StepOk(s) && Runs.StepFits(Runs.Run(st, steps), s, m)
    ensures Runs.RunOk(st, steps + [s], m)
    ensures Runs.Run(st, steps + [s]) == Runs.Apply(Runs.Run(st, steps), s).store
  {
    Unsnoc(steps, s);
  }

  lemma AfterDefinition(pwd: string)
    ensures Runs.Run(EMPTY, WithoutName(pwd)[..1]) == Runs.Store(DEFINED, Some(Record(DEFINED)))
    ensures Runs.RunOk(EMPTY, WithoutName(pwd)[..1], Runs.TOKEN_LEN)
    ensures Runs.Holds(Some(Record(DEFINED)), DEFINED, Runs.TOKEN_LEN) && Loadable(DEFINED)
  {
    var s := WithoutName(pwd)[0];
    assert WithoutName(pwd)[..1] == [] + [s];
    FirstIsOk(pwd);
    RunOkSnoc(EMPTY, [], s, Runs.TOKEN_LEN);
    Runs.BoundedIsLoadable(DEFINED, 0);
    FileIsRecord(EMPTY, DEFINED, "");
  }

  /** The password is stored beside the definition, and the load before it fits. */
  lemma PasswordStored(pwd: string)
    requires Clean(pwd) && '\0' !in pwd && |pwd| <= Runs.AUTH_NAME_PWD_LEN
    requires Loadable(DEFINED) && Runs.Holds(Some(Record(DEFINED)), DEFINED, Runs.TOKEN_LEN)
    ensures var st, s, dc := Runs.Store(DEFINED, Some(Record(DEFINED))), WithoutName(pwd)[1], DEFINED.(authPwd := pwd);
            && Runs.StepFits(st, s, Runs.TOKEN_LEN) && Runs.StepOk(s)
            && Runs.Apply(st, s).store == Runs.Store(dc, Some(Record(dc))) && Loadable(dc)
  {
    var st, dc := Runs.Store(DEFINED, Some(Record(DEFINED))), DEFINED.(authPwd := pwd);
    TailIsJunk(DEFINED, "");
    LeftByCases(("", ""), DEFINED, "");
    LoadExactly(DEFINED, DEFINED, Record(DEFINED), "");
    LoadFitsRecord(st, DEFINED, "", Runs.TOKEN_LEN);
    Runs.BoundedIsLoadable(dc, Runs.AUTH_NAME_PWD_LEN);
    Runs.RecordLength(dc);
    Runs.RecordLength(DEFINED);
    FileIsRecord(st, dc, "");
  }

  lemma AfterPassword(pwd: string)
    requires Clean(pwd) && '\0' !in pwd && |pwd| <= Runs.AUTH_NAME_PWD_LEN
    ensures var dc := DEFINED.(authPwd := pwd);
            && Runs.Run(EMPTY, WithoutName(pwd)) == Runs.Store(dc, Some(Record(dc)))
            && Runs.RunOk(EMPTY, WithoutName(pwd), Runs.TOKEN_LEN)
            && Runs.Holds(Some(Record(dc)), dc, Runs.TOKEN_LEN) && Loadable(dc)
  {
    AfterDefinition(pwd);
    PasswordStored(pwd);
    assert WithoutName(pwd) == WithoutName(pwd)[..1] + [WithoutName(pwd)[1]];
    RunOkSnoc(EMPTY, WithoutName(pwd)[..1], WithoutName(pwd)[1], Runs.TOKEN_LEN);
  }

  /** Memory that spells a password field: the next definition then stores "pwd=" and the old
      password as the name and that word as the password. */
  lemma PasswordBecomesName(pwd: string, word: string, s: Runs.Step)
    requires Clean(pwd) && '\0' !in pwd && |pwd| <= Runs.AUTH_NAME_PWD_LEN
    requires Clean(word) && '\0' !in word && |word| <= Runs.TOKEN_LEN
    requires s.DefineStep? && Following(s, PWD + word) && s.io.storeOk
    ensures Runs.RunOk(EMPTY, WithoutName(pwd) + [s], Runs.TOKEN_LEN)
    ensures Stored(Runs.Run(EMPTY, WithoutName(pwd)), s) == Some(DEFINED.(
              cid := s.cid, pdpType := s.pdpType, apn := s.apn, authName := PWD + pwd, authPwd := word))
  {
    var dc := DEFINED.(authPwd := pwd);
    var st, junk := Runs.Store(dc, Some(Record(dc))), PWD + word;
    AfterPassword(pwd);
    TailIsJunk(dc, junk);
    PasswordIsJunk(dc, word);
    LoadExactly(dc, dc, Record(dc), junk);
    LoadFitsRecord(st, dc, junk, Runs.TOKEN_LEN);
    RunOkSnoc(EMPTY, WithoutName(pwd), s, Runs.TOKEN_LEN);
  }

  lemma TailIsJunk(dc: Dc, junk: string)
    requires |Record(dc)| < BUF_SIZE && '\0' !in junk
    ensures Tail(Record(dc), dc, junk) == junk
  {
    assert Record(dc)[|Record(dc)|..] + junk == junk;
    CStrIdentity(junk);
  }

  lemma PasswordIsJunk(dc: Dc, word: string)
    requires dc.authName == "" && Clean(dc.authPwd) && Clean(word)
    ensures ReadName(dc.authName, dc.authPwd) == PWD + dc.authPwd
    ensures ReadPassword(dc.authName, dc.authPwd, PWD + word) == Some(word)
  {
    var pwd, tail := dc.authPwd, PWD + word;
    CleanWord(pwd);
    TokenEnds(pwd, "");
    assert pwd + "" == pwd;
    assert pwd[|pwd|..] + ([' '] + tail) == [' '] + tail;
    WordAfterSpace(tail);
    MemoryRead(word);
  }

  lemma SwollenLength(pwd: string, word: string, s: Runs.Step)
    requires s.DefineStep?
    ensures var dc := DEFINED.(cid := s.cid, pdpType := s.pdpType, apn := s.apn);
            |Record(dc.(authName := PWD + pwd, authPwd := word))|
            == 41 + |Dec(s.cid)| + |s.apn| + |s.pdpType| + |pwd| + |word|
  {
    var dc := DEFINED.(cid := s.cid, pdpType := s.pdpType, apn := s.apn);
    Runs.RecordLength(dc.(authName := PWD + pwd, authPwd := word));
    assert |Dec(0)| == 1;
  }

  lemma Repeated(c: char, n: nat) returns (s: string)
    requires !IsSpace(c) && c != '\0' && n > 0
    ensures |s| == n && Clean(s) && '\0' !in s
  {
    s := seq(n, _ => c);
    assert forall d <- s :: d == c;
  }

  /** A run whose loads all stay within their variables, and whose third command stores a record
      of 376 characters. */
  lemma RecordBeyondBound() returns (steps: seq<Runs.Step>, s: Runs.Step)
    ensures Runs.RunOk(EMPTY, steps + [s], Runs.TOKEN_LEN)
    ensures var dc := Stored(Runs.Run(EMPTY, steps), s);
            dc.Some? && |Record(dc.value)| == 376 > BOUND
  {
    var pwd := Repeated('p', Runs.AUTH_NAME_PWD_LEN);
    var word := Repeated('w', Runs.TOKEN_LEN);
    steps, s := WithoutName(pwd), Longest(PWD + word);
    LongestIs(PWD + word);
    PasswordBecomesName(pwd, word, s);
    SwollenLength(pwd, word, s);
  }
}
