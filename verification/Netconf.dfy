/** The shared state of the proxy (core/src/Netconf.cpp) and the updates the modem interface
    makes to it (extensions/netconf/src/NetconfRilClient.cpp). */
module NetconfState {
  import opened Text
  import opened DcContexts
  import opened DataCalls
  import opened World
  import opened Persistence

  ghost function Values(contexts: seq<DcContext>): seq<Dc>
    reads contexts
  {
    seq(|contexts|, i requires 0 <= i < |contexts| reads contexts => contexts[i].Value())
  }

  class Netconf {
    var pending: seq<Pending>
    var contexts: seq<DcContext>
    var rat: Rat
    /** What the route controller was asked to do. */
    var events: seq<Event>
    const persist: NetconfLinuxPersistence

    /** There is always a context, and no object is listed twice. */
    ghost predicate Valid()
      reads this
    {
      && |contexts| >= 1
      && forall i, j :: 0 <= i < j < |contexts| ==> contexts[i] != contexts[j]
    }

    ghost function CallState(): Calls
      reads this, contexts
    {
      Calls(Values(contexts), events)
    }

    constructor ()
      ensures Valid() && fresh(persist) && fresh(contexts)
      ensures pending == [] && rat == NoRat && persist.file == None
      ensures CallState() == Calls([FRESH], [])
    {
      persist := new NetconfLinuxPersistence();
      pending, rat, events := [], NoRat, [];
      var dc := new DcContext();
      dc.cid := -1;
      contexts := [dc];
    }

    /** The back of the list: the structure is a stack. */
    method DequeuePendingMessage() returns (r: Option<Pending>)
      modifies this`pending
      ensures r == if old(pending) == [] then None else Some(Last(old(pending)))
      ensures pending == if old(pending) == [] then [] else DropLast(old(pending))
    {
      r := None;
      if pending != [] {
        r := Some(Last(pending));
        pending := DropLast(pending);
      }
    }

    /** Returns whether more than one message is waiting, which the original reports. */
    method EnqueuePendingMessage(p: Pending) returns (suspicious: bool)
      modifies this`pending
      ensures pending == old(pending) + [p]
      ensures suspicious <==> old(pending) != []
    {
      pending := pending + [p];
      suspicious := |pending| > 1;
    }

    /** The first context with the cid or with none, found by walking the list. */
    method FindContext(cid: int) returns (i: nat)
      ensures i == FindFrom(Values(contexts), cid, 0)
    {
      i := 0;
      ghost var dcs := Values(contexts);
      while i < |contexts| && !(contexts[i].cid == cid || contexts[i].cid == -1)
        invariant i <= |contexts|
        invariant FindFrom(dcs, cid, i) == FindFrom(dcs, cid, 0)
      {
        i := i + 1;
      }
    }

    /** The setters of updateDcContextFromDataCall. */
    method FillContext(dc: DcContext, call: DataCall)
      modifies dc
      ensures dc.Value() == Fill(old(dc.Value()), call)
    {
      dc.cid := call.cid;
      dc.activated := call.up;
      dc.apn := call.interfaceName;
      dc.dns1, dc.dns2 := DNS, DNS;
      dc.pdpAddr := call.address;
      match call.pdpType {
        case CallIp => dc.pdpType := "IP";
        case CallIpv4v6 => dc.pdpType := "IPV4V6";
        case CallIpv6 => dc.pdpType := "IPV6";
        case OtherType =>
      }
    }

    /** Finds the context for a cid, adding one if there is none. */
    method ReserveContext(cid: int) returns (i: nat)
      requires Valid()
      modifies this`contexts
      ensures Valid() && fresh(set o | o in contexts && o !in old(contexts))
      ensures i == FindFrom(old(Values(contexts)), cid, 0) && i < |contexts|
      ensures Values(contexts) == Reserve(old(Values(contexts)), cid)
    {
      i := FindContext(cid);
      if i == |contexts| {
        var dc := new DcContext();
        contexts := contexts + [dc];
      }
    }

    /** Fills context i from a report and calls the route controller on an edge. */
    method ReportOn(i: nat, call: DataCall)
      requires Valid() && i < |contexts|
      modifies this`events, contexts
      ensures Valid()
      ensures CallState() == Report(old(CallState()), i, call)
    {
      var found := contexts[i];
      var wasActivated := found.activated;
      FillContext(found, call);
      assert Values(contexts) == old(Values(contexts))[i := found.Value()];
      if wasActivated && !found.activated {
        events := events + [Terminated(i, found.cid, call.interfaceName)];
      } else if !wasActivated && found.activated {
        events := events + [Established(i, found.cid, call.interfaceName, found.dns1, found.dns2)];
      }
    }

    method UpdateDcContextFromDataCall(call: DataCall)
      requires Valid()
      modifies this`contexts, this`events, contexts
      ensures Valid() && fresh(set o | o in contexts && o !in old(contexts))
      ensures CallState() == Update(old(CallState()), call)
    {
      var i := ReserveContext(call.cid);
      ReportOn(i, call);
    }

    /** The counter is a uint8_t, so the list must have at most 255 entries. */
    method OnDataCallListChanged(calls: seq<DataCall>)
      requires Valid() && |calls| <= 255
      modifies this`contexts, this`events, contexts
      ensures Valid() && fresh(set o | o in contexts && o !in old(contexts))
      ensures CallState() == UpdateAll(old(CallState()), calls)
    {
      ghost var states := States(CallState(), calls);
      var i := 0;
      while i < |calls|
        invariant 0 <= i <= |calls|
        invariant Valid() && fresh(set o | o in contexts && o !in old(contexts))
        invariant CallState() == states[i]
        decreases |calls| - i
      {
        assert states[i + 1] == Update(states[i], calls[i]);
        UpdateDcContextFromDataCall(calls[i]);
        i := Increment8(i);
      }
    }
  }

  /** The end of the line: what was sent to either side. */
  class FinalOutputWriter {
    var host: seq<string>
    var device: seq<string>

    constructor ()
      ensures host == [] && device == []
    {
      host, device := [], [];
    }

    method WriteToHost(text: string)
      modifies this`host
      ensures host == old(host) + [Cut(text)]
    {
      host := host + [Cut(text)];
    }

    method WriteToDevice(text: string)
      modifies this`device
      ensures device == old(device) + [Cut(text)]
    {
      device := device + [Cut(text)];
    }
  }
}
