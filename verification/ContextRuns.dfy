/** Context 0 and its persisted record under runs of CGDCONT and XGAUTH
    (extensions/netconf/src/NetconfAtCommandParser.cpp): both reload the context, change
    their own fields and store the whole record. */
module ContextRuns {
  import opened Text
  import opened Scanf
  import opened DcContexts
  import opened DataCalls
  import opened Persistence
  import Recovery

  const AUTH_NAME_PWD_LEN := 64

  /** Longest argument a command token can carry. */
  const TOKEN_LEN := 127

  /** What one command meets outside: the memory behind the read and the print buffer, and
      whether the store succeeds. */
  datatype Io = Io(junk: string, memory: string, storeOk: bool)

  /** Context 0 and the file. */
  datatype Store = Store(dc: Dc, file: Option<string>)

  datatype Outcome = Outcome(store: Store, ok: bool)

  // ----- The read-modify-write commands

  function Refresh(st: Store, junk: string): Store {
    var r := Load(st.dc, st.file, junk);
    if r.Some? then st.(dc := r.value) else st
  }

  function Save(st: Store, io: Io): Outcome {
    if io.storeOk then Outcome(st.(file := Some(Overwrite(st.file, Written(Record(st.dc), io.memory)))), true)
    else Outcome(st, false)
  }

  /** AT+CGDCONT=cid,pdpType,apn once its arguments are accepted. */
  function Define(st: Store, cid: int, pdpType: string, apn: string, io: Io): Outcome {
    var loaded := Refresh(st, io.junk);
    Save(loaded.(dc := loaded.dc.(cid := cid, pdpType := pdpType, apn := apn)), io)
  }

  /** AT+XGAUTH=cid,mode,name,pwd once its arguments are accepted. */
  function Authenticate(st: Store, cid: int, mode: int, name: string, pwd: string, io: Io): Outcome {
    var loaded := Refresh(st, io.junk);
    if loaded.dc.cid == -1 || loaded.dc.cid != cid then Outcome(loaded, false)
    else Save(loaded.(dc := loaded.dc.(authMode := mode, authName := name, authPwd := pwd)), io)
  }

  // ----- Runs

  datatype Step =
    | DefineStep(cid: int, pdpType: string, apn: string, io: Io)
    | AuthenticateStep(cid: int, mode: int, name: string, pwd: string, io: Io)
    | QueryStep(junk: string)
    | ReportStep(call: DataCall)

  function Apply(st: Store, s: Step): Outcome {
    match s
    case DefineStep(cid, pdpType, apn, io) => Define(st, cid, pdpType, apn, io)
    case AuthenticateStep(cid, mode, name, pwd, io) => Authenticate(st, cid, mode, name, pwd, io)
    case QueryStep(junk) => Outcome(Refresh(st, junk), true)
    // the modem reports a data call on context 0
    case ReportStep(call) => Outcome(st.(dc := Fill(st.dc, call)), true)
  }

  function Run(st: Store, steps: seq<Step>): Store {
    if |steps| == 0 then st else Apply(Run(st, DropLast(steps)), Last(steps)).store
  }

  predicate IsInt32(n: int) {
    -0x8000_0000 <= n <= 0x7fff_ffff
  }

  /** Numbers that fit an int and texts that fit their buffers. */
  predicate StepOk(s: Step) {
    match s
    case DefineStep(cid, pdpType, apn, _) =>
      IsInt32(cid) && pdpType in IP_TYPES && |apn| <= TOKEN_LEN && '\0' !in apn
    case AuthenticateStep(cid, mode, name, pwd, _) =>
      && IsInt32(cid) && IsInt32(mode) && |name| <= AUTH_NAME_PWD_LEN && |pwd| <= AUTH_NAME_PWD_LEN
      && '\0' !in name && '\0' !in pwd
    case _ => true
  }

  /** No conversion of a load overran its variable: "%s" stored at most m characters, "%d" an int. */
  predicate LoadFits(st: Store, junk: string, m: nat) {
    st.file.Some? ==>
      forall item <- Scan(FullFormat(), Buffer(st.file.value, junk)) :: ItemFits(item, m)
  }

  predicate ItemFits(item: Item, m: nat) {
    if item.Token? then |item.s| <= m else IsInt32(item.n)
  }

  predicate StepFits(st: Store, s: Step, m: nat) {
    match s
    case DefineStep(_, _, _, io) => LoadFits(st, io.junk, m)
    case AuthenticateStep(_, _, _, _, io) => LoadFits(st, io.junk, m)
    case QueryStep(junk) => LoadFits(st, junk, m)
    case ReportStep(_) => true
  }

  ghost predicate RunOk(st: Store, steps: seq<Step>, m: nat) {
    |steps| == 0 ||
    (RunOk(st, DropLast(steps), m) && StepOk(Last(steps)) && StepFits(Run(st, DropLast(steps)), Last(steps), m))
  }

  // ----- What every step keeps

  /** The authentication fields in memory are bounded. */
  predicate AuthBounded(dc: Dc, m: nat) {
    |dc.authName| <= m && |dc.authPwd| <= m && IsInt32(dc.authMode) && '\0' !in dc.authName && '\0' !in dc.authPwd
  }

  predicate DefinitionBounded(dc: Dc) {
    IsInt32(dc.cid) && dc.pdpType in IP_TYPES && Clean(dc.apn) && |dc.apn| <= TOKEN_LEN && '\0' !in dc.apn
  }

  lemma {:induction false} DecNatLength(n: nat, k: nat, bound: nat)
    requires n < bound && bound == Pow10(k) && k > 0
    ensures |DecNat(n)| <= k
    decreases k
  {
    if n >= 10 {
      DecNatLength(n / 10, k - 1, Pow10(k - 1));
    }
  }

  function Pow10(k: nat): nat {
    if k == 0 then 1 else 10 * Pow10(k - 1)
  }

  lemma DecLength(n: int)
    requires IsInt32(n)
    ensures |Dec(n)| <= 11
  {
    assert Pow10(10) == 10_000_000_000 by {
      assert Pow10(5) == 100_000;
      assert Pow10(7) == 10_000_000;
    }
    DecNatLength(if n < 0 then -n else n, 10, Pow10(10));
  }

  lemma RecordLength(dc: Dc)
    ensures |Record(dc)| == 36 + |Dec(dc.cid)| + |dc.apn| + |dc.pdpType| + |Dec(dc.authMode)|
                            + |dc.authName| + |dc.authPwd|
  {
  }

  /** A bounded context prints at most 191 characters besides the credentials. */
  lemma RecordBound(dc: Dc, m: nat)
    requires IsInt32(dc.cid) && |dc.apn| <= TOKEN_LEN && |dc.pdpType| <= 6 && AuthBounded(dc, m)
    ensures |Record(dc)| <= 191 + 2 * m
  {
    RecordLength(dc);
    DecLength(dc.cid);
    DecLength(dc.authMode);
  }

  lemma RecordNulFree(dc: Dc)
    requires '\0' !in dc.apn && '\0' !in dc.pdpType && '\0' !in dc.authName && '\0' !in dc.authPwd
    ensures '\0' !in Record(dc)
  {
    var z := '\0';
    assert z !in Dec(dc.cid) && z !in Dec(dc.authMode);
    assert z !in Credentials(dc, "");
    assert z !in TypeAndMode(dc, Credentials(dc, ""));
  }

  lemma IpTypesClean(pdpType: string)
    requires pdpType in IP_TYPES
    ensures Clean(pdpType) && '\0' !in pdpType && |pdpType| <= 6
  {
    assert pdpType == "IP" || pdpType == "IPV4V6" || pdpType == "IPV6";
  }

  /** A bounded context makes a record that loads back. */
  lemma BoundedIsLoadable(dc: Dc, m: nat)
    requires DefinitionBounded(dc) && AuthBounded(dc, m) && m <= TOKEN_LEN
    ensures Loadable(dc)
  {
    IpTypesClean(dc.pdpType);
    RecordNulFree(dc);
    RecordBound(dc, m);
  }

  // ----- Loads inside a run

  lemma {:induction false} ScanNulFree(fmt: seq<Directive>, s: string)
    requires '\0' !in s
    ensures forall i :: 0 <= i < |Scan(fmt, s)| && Scan(fmt, s)[i].Token? ==> '\0' !in Scan(fmt, s)[i].s
    decreases |fmt|
  {
    if |fmt| != 0 {
      var rest := fmt[1..];
      match fmt[0]
      case Lit(c) =>
        if |s| > 0 && s[0] == c {
          ScanNulFree(rest, s[1..]);
        }
      case White =>
        SkipWhiteNulFree(s);
        ScanNulFree(rest, SkipWhite(s));
      case Int =>
        SkipWhiteNulFree(s);
        var t := SkipWhite(s);
        ScanNulFree(rest, t[ScanInt(t).1..]);
      case Str =>
        SkipWhiteNulFree(s);
        var t := SkipWhite(s);
        ScanNulFree(rest, t[TokenLength(t)..]);
    }
  }

  lemma {:induction false} SkipWhiteNulFree(s: string)
    requires '\0' !in s
    ensures '\0' !in SkipWhite(s)
  {
    if |s| > 0 && IsSpace(s[0]) {
      SkipWhiteNulFree(s[1..]);
    }
  }

  /** A load that fits leaves bounded authentication fields. */
  lemma RefreshBounded(st: Store, junk: string, m: nat)
    requires AuthBounded(st.dc, m) && LoadFits(st, junk, m)
    ensures AuthBounded(Refresh(st, junk).dc, m)
  {
    if st.file.Some? && |st.file.value| > 0 {
      ApplyBounded(st.dc, Buffer(st.file.value, junk), m);
    }
  }

  lemma ApplyBounded(dc: Dc, text: string, m: nat)
    requires AuthBounded(dc, m) && '\0' !in text
    requires forall item <- Scan(FullFormat(), text) :: ItemFits(item, m)
    ensures var r := Persistence.Apply(dc, text);
            r.Some? ==> AuthBounded(r.value, m)
  {
    ScanFields(text);
    ScanNulFree(FullFormat(), text);
    var six, four := Scan(FullFormat(), text), Scan(ShortFormat(), text);
    if |six| == 6 {
      assert ItemFits(six[3], m) && ItemFits(six[4], m) && ItemFits(six[5], m);
    } else if |four| == 4 {
      assert six[3] == four[3] && ItemFits(six[3], m);
    }
  }

  /** The file starts with this record. */
  predicate Holds(file: Option<string>, stored: Dc, m: nat) {
    file.Some? && Record(stored) <= file.value && DefinitionBounded(stored) && AuthBounded(stored, m)
  }

  /** Reloading replaces what memory held by what the file holds. */
  lemma RefreshHolds(st: Store, stored: Dc, junk: string, m: nat)
    requires Holds(st.file, stored, m) && m <= TOKEN_LEN
    ensures var dc := Refresh(st, junk).dc;
            && dc.cid == stored.cid && dc.pdpType == stored.pdpType && dc.apn == stored.apn
            && dc.authMode == stored.authMode
            && (Clean(stored.authName) && Clean(stored.authPwd) ==>
                  dc.authName == stored.authName && dc.authPwd == stored.authPwd)
  {
    BoundedIsLoadable(stored, m);
    LoadRecord(st.dc, stored, st.file.value, junk);
  }

  /** A successful save of a bounded context leaves its record at the front of the file. */
  lemma SaveHolds(st: Store, io: Io, m: nat)
    requires io.storeOk && DefinitionBounded(st.dc) && AuthBounded(st.dc, m) && m <= TOKEN_LEN
    ensures Holds(Save(st, io).store.file, st.dc, m)
  {
    BoundedIsLoadable(st.dc, m);
  }

  // ----- The persisted record is the last write of each field

  /** What the writes of a run leave, since the last definition that cannot be read back; None where
      they do not determine a value. */
  datatype Expected = Expected(
    cid: int, pdpType: string, apn: string, mode: Option<int>, credentials: Option<(string, string)>)

  /** Only a successful store counts, and XGAUTH only for the defined cid. A definition whose name
      is empty or has white space, which CGDCONT accepts, leaves a record that does not load back. */
  function NextWrite(before: Option<Expected>, s: Step): Option<Expected> {
    match s
    case DefineStep(cid, pdpType, apn, io) =>
      if !io.storeOk then before
      else if !Clean(apn) then None
      else if before == None then Some(Expected(cid, pdpType, apn, None, None))
      else Some(before.value.(cid := cid, pdpType := pdpType, apn := apn))
    case AuthenticateStep(cid, mode, name, pwd, io) =>
      if !io.storeOk || before == None || before.value.cid != cid || cid == -1 then before
      else Some(before.value.(mode := Some(mode),
                              credentials := if Clean(name) && Clean(pwd) then Some((name, pwd)) else None))
    case _ => before
  }

  function LastWrite(steps: seq<Step>): Option<Expected> {
    if |steps| == 0 then None else NextWrite(LastWrite(DropLast(steps)), Last(steps))
  }

  predicate Matches(stored: Dc, e: Expected) {
    && stored.cid == e.cid && stored.pdpType == e.pdpType && stored.apn == e.apn
    && (e.mode.Some? ==> stored.authMode == e.mode.value)
    && (e.credentials.Some? ==>
          && Clean(stored.authName) && Clean(stored.authPwd)
          && stored.authName == e.credentials.value.0 && stored.authPwd == e.credentials.value.1)
  }

  /** One step keeps memory bounded. */
  lemma StepBounded(st: Store, s: Step, m: nat)
    requires AuthBounded(st.dc, m) && StepOk(s) && StepFits(st, s, m) && m >= AUTH_NAME_PWD_LEN
    ensures AuthBounded(Apply(st, s).store.dc, m)
  {
    match s
    case DefineStep(_, _, _, io) => RefreshBounded(st, io.junk, m);
    case AuthenticateStep(_, _, _, _, io) => RefreshBounded(st, io.junk, m);
    case QueryStep(junk) => RefreshBounded(st, junk, m);
    case ReportStep(_) =>
  }

  lemma DefineKeepsLastWrite(st: Store, s: Step, before: Option<Expected>, stored0: Dc, m: nat) returns (stored: Dc)
    requires s.DefineStep? && s.io.storeOk && Clean(s.apn)
    requires AuthBounded(st.dc, m) && StepOk(s) && StepFits(st, s, m) && m <= TOKEN_LEN
    requires before.Some? ==> Holds(st.file, stored0, m) && Matches(stored0, before.value)
    ensures Holds(Apply(st, s).store.file, stored, m) && Matches(stored, NextWrite(before, s).value)
  {
    var loaded := Refresh(st, s.io.junk);
    stored := loaded.dc.(cid := s.cid, pdpType := s.pdpType, apn := s.apn);
    RefreshBounded(st, s.io.junk, m);
    if before.Some? {
      RefreshHolds(st, stored0, s.io.junk, m);
    }
    SaveHolds(loaded.(dc := stored), s.io, m);
  }

  lemma AuthenticateKeepsLastWrite(st: Store, s: Step, before: Expected, stored0: Dc, m: nat) returns (stored: Dc)
    requires s.AuthenticateStep?
    requires AuthBounded(st.dc, m) && StepOk(s) && StepFits(st, s, m) && AUTH_NAME_PWD_LEN <= m <= TOKEN_LEN
    requires Holds(st.file, stored0, m) && Matches(stored0, before)
    ensures Holds(Apply(st, s).store.file, stored, m) && Matches(stored, NextWrite(Some(before), s).value)
  {
    var loaded := Refresh(st, s.io.junk);
    stored := stored0;
    RefreshBounded(st, s.io.junk, m);
    RefreshHolds(st, stored0, s.io.junk, m);
    if s.io.storeOk && s.cid == stored0.cid && s.cid != -1 {
      stored := loaded.dc.(authMode := s.mode, authName := s.name, authPwd := s.pwd);
      SaveHolds(loaded.(dc := stored), s.io, m);
    }
  }

  /** The record in the file after one step, given the one before. */
  lemma StepKeepsLastWrite(st: Store, s: Step, before: Option<Expected>, stored0: Dc, m: nat) returns (stored: Dc)
    requires AuthBounded(st.dc, m) && StepOk(s) && StepFits(st, s, m) && AUTH_NAME_PWD_LEN <= m <= TOKEN_LEN
    requires before.Some? ==> Holds(st.file, stored0, m) && Matches(stored0, before.value)
    ensures var after := NextWrite(before, s);
            after.Some? ==> Holds(Apply(st, s).store.file, stored, m) && Matches(stored, after.value)
  {
    stored := stored0;
    if s.DefineStep? && s.io.storeOk && Clean(s.apn) {
      stored := DefineKeepsLastWrite(st, s, before, stored0, m);
    } else if s.AuthenticateStep? && before.Some? {
      stored := AuthenticateKeepsLastWrite(st, s, before.value, stored0, m);
    }
  }

  lemma {:induction false} RunKeepsLastWrite(st: Store, steps: seq<Step>, m: nat) returns (stored: Dc)
    requires AuthBounded(st.dc, m) && RunOk(st, steps, m) && AUTH_NAME_PWD_LEN <= m <= TOKEN_LEN
    ensures AuthBounded(Run(st, steps).dc, m)
    ensures LastWrite(steps).Some? ==> Holds(Run(st, steps).file, stored, m) && Matches(stored, LastWrite(steps).value)
  {
    if |steps| == 0 {
      stored := st.dc;
    } else {
      var before, s := DropLast(steps), Last(steps);
      var stored0 := RunKeepsLastWrite(st, before, m);
      StepBounded(Run(st, before), s, m);
      stored := StepKeepsLastWrite(Run(st, before), s, LastWrite(before), stored0, m);
    }
  }

  /** After any run, from any file and with modem reports in between, any context that loads
      the file gets the last definition, the last accepted mode and the last clean credentials. */
  lemma LoadAfterRun(st: Store, steps: seq<Step>, m: nat, dc: Dc, junk: string)
    requires AuthBounded(st.dc, m) && RunOk(st, steps, m) && AUTH_NAME_PWD_LEN <= m <= TOKEN_LEN
    requires LastWrite(steps).Some?
    ensures var e := LastWrite(steps).value;
            var r := Load(dc, Run(st, steps).file, junk);
            && r.Some?
            && r.value.cid == e.cid && r.value.pdpType == e.pdpType && r.value.apn == e.apn
            && (e.mode.Some? ==> r.value.authMode == e.mode.value)
            && (e.credentials.Some? ==> (r.value.authName, r.value.authPwd) == e.credentials.value)
  {
    var stored := RunKeepsLastWrite(st, steps, m);
    BoundedIsLoadable(stored, m);
    LoadRecord(dc, stored, Run(st, steps).file.value, junk);
  }

  /** Once a record is stored, XGAUTH succeeds exactly for its cid. */
  lemma AuthenticateExactly(st: Store, stored: Dc, cid: int, mode: int, name: string, pwd: string, io: Io, m: nat)
    requires Holds(st.file, stored, m) && m <= TOKEN_LEN
    ensures Authenticate(st, cid, mode, name, pwd, io).ok <==> io.storeOk && cid == stored.cid && cid != -1
  {
    RefreshHolds(st, stored, io.junk, m);
  }

  /** The definition that a successful CGDCONT stores, after any run and over any file, loads back if
      and only if its name is non-empty and free of white space. */
  lemma DefinitionLoadsExactly(st: Store, steps: seq<Step>, s: Step, m: nat, dc: Dc, junk: string)
    requires AuthBounded(st.dc, m) && AUTH_NAME_PWD_LEN <= m <= TOKEN_LEN
    requires s.DefineStep? && s.io.storeOk && RunOk(st, steps + [s], m)
    ensures var r := Load(dc, Run(st, steps + [s]).file, junk);
            (r.Some? && (r.value.cid, r.value.pdpType, r.value.apn) == (s.cid, s.pdpType, s.apn)) <==> Clean(s.apn)
  {
    Unsnoc(steps, s);
    var before := Run(st, steps);
    var earlier := RunKeepsLastWrite(st, steps, m);
    RefreshBounded(before, s.io.junk, m);
    var stored := Refresh(before, s.io.junk).dc.(cid := s.cid, pdpType := s.pdpType, apn := s.apn);
    IpTypesClean(s.pdpType);
    RecordNulFree(stored);
    RecordBound(stored, m);
    Recovery.DefinitionRecoveredExactly(dc, stored, Run(st, steps + [s]).file.value, junk);
  }
}
