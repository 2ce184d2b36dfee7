/** Data-call reports of the modem (extensions/netconf/src/NetconfRilClient.cpp): each report
    updates the first context that matches and raises a tethering event on an edge. */
module DataCalls {
  import opened Text
  import opened DcContexts

  datatype CallType = CallIp | CallIpv4v6 | CallIpv6 | OtherType

  /** The fields of a report that are read; up tells whether the link is active and up. */
  datatype DataCall = DataCall(cid: int, up: bool, interfaceName: string, address: string, pdpType: CallType)

  /** A call of enableTethering or disableTethering; context is the position of the context
      object in the list, which only grows. */
  datatype Event =
    | Established(context: nat, cid: int, interfaceName: string, dns1: string, dns2: string)
    | Terminated(context: nat, cid: int, interfaceName: string)

  const DNS := "8.8.8.8"

  /** The contexts and the tethering log. */
  datatype Calls = Calls(dcs: seq<Dc>, events: seq<Event>)

  // ----- One report

  predicate Fits(dc: Dc, cid: int) {
    dc.cid == cid || dc.cid == -1
  }

  /** The first context from i on that has the cid or none; the length of the list if none fits. */
  function FindFrom(dcs: seq<Dc>, cid: int, i: nat): (r: nat)
    requires i <= |dcs|
    ensures i <= r <= |dcs|
    ensures forall k :: i <= k < r ==> !Fits(dcs[k], cid)
    ensures r < |dcs| ==> Fits(dcs[r], cid)
    decreases |dcs| - i
  {
    if i == |dcs| || Fits(dcs[i], cid) then i else FindFrom(dcs, cid, i + 1)
  }

  function Fill(dc: Dc, call: DataCall): Dc {
    var pdpType := match call.pdpType
      case CallIp => "IP"
      case CallIpv4v6 => "IPV4V6"
      case CallIpv6 => "IPV6"
      case OtherType => dc.pdpType;
    dc.(cid := call.cid, activated := call.up, apn := call.interfaceName, dns1 := DNS, dns2 := DNS,
        pdpAddr := call.address, pdpType := pdpType)
  }

  function Edge(i: nat, was: bool, dc: Dc, call: DataCall): seq<Event> {
    if was && !dc.activated then [Terminated(i, dc.cid, call.interfaceName)]
    else if !was && dc.activated then [Established(i, dc.cid, call.interfaceName, dc.dns1, dc.dns2)]
    else []
  }

  /** The list with a context for the cid: the first that fits, or a new one at the end. */
  function Reserve(dcs: seq<Dc>, cid: int): (r: seq<Dc>)
    ensures FindFrom(dcs, cid, 0) < |r|
  {
    if FindFrom(dcs, cid, 0) < |dcs| then dcs else dcs + [FRESH]
  }

  /** Writing a report into context i. */
  function Report(c: Calls, i: nat, call: DataCall): Calls
    requires i < |c.dcs|
  {
    var dc := Fill(c.dcs[i], call);
    Calls(c.dcs[i := dc], c.events + Edge(i, c.dcs[i].activated, dc, call))
  }

  /** updateDcContextFromDataCall. */
  function Update(c: Calls, call: DataCall): Calls {
    Report(c.(dcs := Reserve(c.dcs, call.cid)), FindFrom(c.dcs, call.cid, 0), call)
  }

  /** onDataCallListChanged. */
  function UpdateAll(c: Calls, calls: seq<DataCall>): Calls {
    if |calls| == 0 then c else Update(UpdateAll(c, DropLast(calls)), Last(calls))
  }

  /** The states between the reports of a list. */
  lemma States(c: Calls, calls: seq<DataCall>) returns (states: seq<Calls>)
    ensures |states| == |calls| + 1 && states[0] == c && states[|calls|] == UpdateAll(c, calls)
    ensures forall i :: 0 <= i < |calls| ==> states[i + 1] == Update(states[i], calls[i])
  {
    states := seq(|calls| + 1, i requires 0 <= i <= |calls| => UpdateAll(c, calls[..i]));
    forall i | 0 <= i < |calls| ensures states[i + 1] == Update(states[i], calls[i]) {
      assert DropLast(calls[..i + 1]) == calls[..i];
    }
    assert calls[..|calls|] == calls;
  }

  // ----- The list stays a map keyed by cid

  /** Never empty, no cid twice, and the undefined cid only alone. */
  ghost predicate Keyed(dcs: seq<Dc>) {
    && |dcs| >= 1
    && (forall i, j :: 0 <= i < j < |dcs| ==> dcs[i].cid != dcs[j].cid)
    && (|dcs| > 1 ==> forall i :: 0 <= i < |dcs| ==> dcs[i].cid != -1)
  }

  /** The context with a cid, if any. */
  function Lookup(dcs: seq<Dc>, cid: int): Option<Dc> {
    if |dcs| == 0 then None
    else if Last(dcs).cid == cid then Some(Last(dcs))
    else Lookup(DropLast(dcs), cid)
  }

  lemma {:induction false} LookupIs(dcs: seq<Dc>, cid: int, i: nat)
    requires i < |dcs| && dcs[i].cid == cid
    requires forall k :: 0 <= k < |dcs| && k != i ==> dcs[k].cid != cid
    ensures Lookup(dcs, cid) == Some(dcs[i])
  {
    if i < |dcs| - 1 {
      LookupIs(DropLast(dcs), cid, i);
    }
  }

  lemma {:induction false} LookupNone(dcs: seq<Dc>, cid: int)
    requires forall k :: 0 <= k < |dcs| ==> dcs[k].cid != cid
    ensures Lookup(dcs, cid) == None
  {
    if |dcs| > 0 {
      LookupNone(DropLast(dcs), cid);
    }
  }

  lemma {:induction false} LookupWhere(dcs: seq<Dc>, cid: int) returns (i: nat)
    ensures i <= |dcs|
    ensures i < |dcs| ==> dcs[i].cid == cid
    ensures i == |dcs| ==> forall k :: 0 <= k < |dcs| ==> dcs[k].cid != cid
  {
    i := 0;
    while i < |dcs| && dcs[i].cid != cid
      invariant i <= |dcs|
      invariant forall k :: 0 <= k < i ==> dcs[k].cid != cid
    {
      i := i + 1;
    }
  }

  /** A context shows a report: link state, interface, address, name servers and, for a known
      type, the type. */
  predicate Shows(dc: Dc, call: DataCall) {
    && dc.cid == call.cid && dc.activated == call.up && dc.apn == call.interfaceName && dc.pdpAddr == call.address
    && dc.dns1 == "8.8.8.8" && dc.dns2 == "8.8.8.8"
    && (call.pdpType == CallIp ==> dc.pdpType == "IP")
    && (call.pdpType == CallIpv4v6 ==> dc.pdpType == "IPV4V6")
    && (call.pdpType == CallIpv6 ==> dc.pdpType == "IPV6")
  }

  /** A command rewrites context 0 without looking at the others: the list stays keyed exactly
      when no other context has the new cid, and -1 is not given to one of several. */
  lemma RedefineKeepsKeyedExactly(dcs: seq<Dc>, dc: Dc)
    requires Keyed(dcs)
    ensures Keyed(dcs[0 := dc]) <==>
            (forall i :: 1 <= i < |dcs| ==> dcs[i].cid != dc.cid) && (|dcs| > 1 ==> dc.cid != -1)
  {
    var after := dcs[0 := dc];
    assert after[0] == dc && forall i :: 1 <= i < |dcs| ==> after[i] == dcs[i];
  }

  lemma UpdateKeepsKeyed(c: Calls, call: DataCall)
    requires Keyed(c.dcs) && call.cid >= 0
    ensures Keyed(Update(c, call).dcs)
  {
  }

  /** After a report, its cid has the reported context and every other cid is unchanged. */
  lemma UpdateLookup(c: Calls, call: DataCall, cid: int)
    requires Keyed(c.dcs) && call.cid >= 0 && cid >= 0
    ensures var found := Lookup(Update(c, call).dcs, cid);
            if cid == call.cid then
              found.Some? && Shows(found.value, call)
            else found == Lookup(c.dcs, cid)
  {
    UpdateKeepsKeyed(c, call);
    var dcs, i := Update(c, call).dcs, FindFrom(c.dcs, call.cid, 0);
    if cid == call.cid {
      LookupIs(dcs, cid, i);
    } else {
      var k := LookupWhere(c.dcs, cid);
      if k < |c.dcs| {
        LookupIs(c.dcs, cid, k);
        LookupIs(dcs, cid, k);
      } else {
        LookupNone(c.dcs, cid);
        LookupNone(dcs, cid);
      }
    }
  }

  /** A report changes one context, and there only what it reports: the first that fits, or a fresh
      one at the end. An edge raises its one event, with the reported cid, interface and servers. */
  lemma UpdateChangesOnly(c: Calls, call: DataCall)
    ensures var i, after := FindFrom(c.dcs, call.cid, 0), Update(c, call);
            var was := if i < |c.dcs| then c.dcs[i] else FRESH;
            && i < |after.dcs| == (if i < |c.dcs| then |c.dcs| else |c.dcs| + 1)
            && (forall k :: 0 <= k < |c.dcs| && k != i ==> after.dcs[k] == c.dcs[k])
            && Shows(after.dcs[i], call)
            && (call.pdpType == OtherType ==> after.dcs[i].pdpType == was.pdpType)
            && after.dcs[i].dComp == was.dComp && after.dcs[i].hComp == was.hComp
            && after.dcs[i].authMode == was.authMode && after.dcs[i].authName == was.authName
            && after.dcs[i].authPwd == was.authPwd
            && after.events == c.events
               + if !was.activated && call.up then
                   [Established(i, call.cid, call.interfaceName, "8.8.8.8", "8.8.8.8")]
                 else if was.activated && !call.up then [Terminated(i, call.cid, call.interfaceName)]
                 else []
  {
  }

  lemma {:induction false} UpdateAllKeepsKeyed(c: Calls, calls: seq<DataCall>)
    requires Keyed(c.dcs) && forall i :: 0 <= i < |calls| ==> calls[i].cid >= 0
    ensures Keyed(UpdateAll(c, calls).dcs)
  {
    if |calls| > 0 {
      UpdateAllKeepsKeyed(c, DropLast(calls));
      UpdateKeepsKeyed(UpdateAll(c, DropLast(calls)), Last(calls));
    }
  }

  /** The last report about a cid. */
  function LastCall(calls: seq<DataCall>, cid: int): Option<DataCall> {
    if |calls| == 0 then None
    else if Last(calls).cid == cid then Some(Last(calls))
    else LastCall(DropLast(calls), cid)
  }

  /** A list of reports is a last-write-wins map update: each listed cid ends with the link
      state, interface and address of its last report, and every other context is unchanged. */
  lemma {:induction false} LastWriteWins(c: Calls, calls: seq<DataCall>, cid: int)
    requires Keyed(c.dcs) && cid >= 0 && forall i :: 0 <= i < |calls| ==> calls[i].cid >= 0
    ensures var found := Lookup(UpdateAll(c, calls).dcs, cid);
            match LastCall(calls, cid)
            case Some(call) =>
              found.Some? && Shows(found.value, call)
            case None => found == Lookup(c.dcs, cid)
  {
    if |calls| > 0 {
      LastWriteWins(c, DropLast(calls), cid);
      UpdateAllKeepsKeyed(c, DropLast(calls));
      UpdateLookup(UpdateAll(c, DropLast(calls)), Last(calls), cid);
    }
  }

  // ----- Tethering follows activation

  function CountEstablished(events: seq<Event>): nat {
    if |events| == 0 then 0
    else CountEstablished(DropLast(events)) + (if Last(events).Established? then 1 else 0)
  }

  function CountTerminated(events: seq<Event>): nat {
    if |events| == 0 then 0
    else CountTerminated(DropLast(events)) + (if Last(events).Terminated? then 1 else 0)
  }

  function CountActive(dcs: seq<Dc>): nat {
    if |dcs| == 0 then 0
    else CountActive(DropLast(dcs)) + (if Last(dcs).activated then 1 else 0)
  }

  /** The events of one context object. */
  function EventsOf(events: seq<Event>, i: nat): seq<Event> {
    if |events| == 0 then []
    else if Last(events).context == i then EventsOf(DropLast(events), i) + [Last(events)]
    else EventsOf(DropLast(events), i)
  }

  /** Tethering is on after these events. */
  predicate On(events: seq<Event>) {
    |events| > 0 && Last(events).Established?
  }

  /** Established and terminated alternate, established first. */
  predicate Alternates(events: seq<Event>) {
    |events| == 0 || (Alternates(DropLast(events)) && Last(events).Established? == !On(DropLast(events)))
  }

  predicate Active(dcs: seq<Dc>, i: nat) {
    i < |dcs| && dcs[i].activated
  }

  /** The log of one context object. */
  predicate Agrees(c: Calls, i: nat) {
    Alternates(EventsOf(c.events, i)) && (On(EventsOf(c.events, i)) <==> Active(c.dcs, i))
  }

  /** The log agrees with the contexts, object by object and in total. */
  ghost predicate Tethered(c: Calls) {
    && (forall i: nat :: Agrees(c, i))
    && CountEstablished(c.events) == CountTerminated(c.events) + CountActive(c.dcs)
  }

  lemma {:induction false} CountActiveUpdate(dcs: seq<Dc>, i: nat, dc: Dc)
    requires i < |dcs|
    ensures CountActive(dcs[i := dc]) + (if dcs[i].activated then 1 else 0)
         == CountActive(dcs) + (if dc.activated then 1 else 0)
  {
    if i == |dcs| - 1 {
      assert DropLast(dcs[i := dc]) == DropLast(dcs);
    } else {
      CountActiveUpdate(DropLast(dcs), i, dc);
      assert DropLast(dcs[i := dc]) == DropLast(dcs)[i := dc];
    }
  }

  /** Logging one event on an edge of one context. */
  lemma LogEdge(c: Calls, e: Event, dcs: seq<Dc>)
    requires Tethered(c) && e.Established? == Active(dcs, e.context) == !Active(c.dcs, e.context)
    requires forall k: nat :: k != e.context ==> (Active(dcs, k) <==> Active(c.dcs, k))
    requires CountActive(dcs) == CountActive(c.dcs) + (if e.Established? then 1 else -1)
    ensures Tethered(Calls(dcs, c.events + [e]))
  {
    forall i: nat ensures Agrees(Calls(dcs, c.events + [e]), i) {
      assert Agrees(c, i);
      EventsSnoc(c.events, e, i);
      Unsnoc(EventsOf(c.events, i), e);
    }
    Unsnoc(c.events, e);
  }

  lemma EventsSnoc(events: seq<Event>, e: Event, i: nat)
    ensures EventsOf(events + [e], i) == if i == e.context then EventsOf(events, i) + [e] else EventsOf(events, i)
  {
    Unsnoc(events, e);
  }

  /** Without an edge nothing is logged. */
  lemma LogNothing(c: Calls, dcs: seq<Dc>)
    requires Tethered(c) && forall k: nat :: Active(dcs, k) <==> Active(c.dcs, k)
    requires CountActive(dcs) == CountActive(c.dcs)
    ensures Tethered(c.(dcs := dcs))
  {
    forall i: nat ensures Agrees(c.(dcs := dcs), i) {
      assert Agrees(c, i);
    }
  }

  /** A report keeps the log and the contexts in agreement. */
  lemma UpdateKeepsTethered(c: Calls, call: DataCall)
    requires Tethered(c)
    ensures Tethered(Update(c, call))
  {
    var i := FindFrom(c.dcs, call.cid, 0);
    var reserved := c.(dcs := Reserve(c.dcs, call.cid));
    if i == |c.dcs| {
      Unsnoc(c.dcs, FRESH);
      LogNothing(c, reserved.dcs);
    }
    ReportKeepsTethered(reserved, i, call);
  }

  lemma ReportKeepsTethered(c: Calls, i: nat, call: DataCall)
    requires Tethered(c) && i < |c.dcs|
    ensures Tethered(Report(c, i, call))
  {
    var after := Report(c, i, call);
    CountActiveUpdate(c.dcs, i, after.dcs[i]);
    assert forall k: nat :: k != i ==> (Active(after.dcs, k) <==> Active(c.dcs, k));
    if c.dcs[i].activated == after.dcs[i].activated {
      assert after.events == c.events;
      LogNothing(c, after.dcs);
    } else {
      LogEdge(c, Edge(i, c.dcs[i].activated, after.dcs[i], call)[0], after.dcs);
    }
  }

  lemma {:induction false} UpdateAllKeepsTethered(c: Calls, calls: seq<DataCall>)
    requires Tethered(c)
    ensures Tethered(UpdateAll(c, calls))
  {
    if |calls| > 0 {
      UpdateAllKeepsTethered(c, DropLast(calls));
      UpdateKeepsTethered(UpdateAll(c, DropLast(calls)), Last(calls));
    }
  }

  /** Commands that change other fields of a context do not disturb the agreement. */
  lemma FieldsKeepTethered(c: Calls, i: nat, dc: Dc)
    requires Tethered(c) && i < |c.dcs| && dc.activated == c.dcs[i].activated
    ensures Tethered(c.(dcs := c.dcs[i := dc]))
  {
    CountActiveUpdate(c.dcs, i, dc);
    LogNothing(c, c.dcs[i := dc]);
  }

  // ----- The loop counter

  /** ++ on a uint8_t. */
  function Increment8(i: nat): nat {
    if i == 255 then 0 else i + 1
  }

  /** The counter after n turns. */
  function Counter(n: nat): nat {
    if n == 0 then 0 else Increment8(Counter(n - 1))
  }

  lemma {:induction false} CounterIs(n: nat)
    ensures Counter(n) == n % 256
  {
    if n > 0 {
      CounterIs(n - 1);
    }
  }

  /** The counter of onDataCallListChanged is a uint8_t: the loop reaches the end of the list
      exactly when the list has at most 255 entries. */
  lemma ListLoopEnds(length: nat)
    ensures (exists n: nat :: Counter(n) >= length) <==> length <= 255
  {
    forall n: nat ensures Counter(n) < 256 {
      CounterIs(n);
    }
    if length <= 255 {
      CounterIs(length);
    }
  }
}
