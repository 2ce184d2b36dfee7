/** What a host reads out of a reply with data: the fields between its name and the empty line,
    one by one (extensions/netconf/src/NetconfAtCommandParser.cpp). */
module ReportTexts {
  import opened Text
  import opened DcContexts
  import opened World

  const NAME_END := "\r\n\r\nOK\r\n"

  /** The comma fields of a reply of this name, if it is one and complete. */
  function ReadReport(name: string, text: string): Option<seq<string>> {
    var start := "\r\n" + name;
    if |start| + 8 <= |text| && start <= text && text[|text| - 8..] == NAME_END then
      Some(Split(text[|start|..|text| - 8], {','}))
    else None
  }

  /** A quoted field. */
  function InQuotes(s: string): string {
    ['\"'] + (s + ['\"'])
  }

  /** No field of the context would be read as two. */
  predicate CommaFree(dc: Dc) {
    && ',' !in dc.apn && ',' !in dc.pdpType && ',' !in dc.pdpAddr && ',' !in dc.dns1 && ',' !in dc.dns2
    && ',' !in dc.authName && ',' !in dc.authPwd
  }

  lemma ReadFramed(name: string, body: string)
    ensures ReadReport(name, ("\r\n" + name) + (body + NAME_END)) == Some(Split(body, {','}))
  {
    var start := "\r\n" + name;
    var text := start + (body + NAME_END);
    assert text == (start + body) + NAME_END;
    assert text[|start|..|text| - 8] == body;
  }

  lemma LineFramed(name: string, body: string)
    ensures Line(name, body) == ("\r\n" + name) + (body + NAME_END)
  {
  }

  /** A reply of comma-free fields is read back field by field. */
  lemma ReadLine(name: string, fields: seq<string>)
    requires fields != [] && forall f <- fields :: ',' !in f
    ensures ReadReport(name, Line(name, Join(fields, ','))) == Some(fields)
  {
    LineFramed(name, Join(fields, ','));
    ReadFramed(name, Join(fields, ','));
    forall i | 0 <= i < |fields| ensures Free(fields[i], {','}) {
      assert fields[i] in fields;
    }
    SplitJoin(fields, ',');
  }

  /** The space before the first field belongs to the name. */
  lemma SpacedLine(name: string, fields: seq<string>)
    requires fields != [] && forall f <- fields :: ',' !in f
    ensures ReadReport(name + [' '], Line(name, [' '] + Join(fields, ','))) == Some(fields)
  {
    ReadLine(name + [' '], fields);
    assert Line(name, [' '] + Join(fields, ',')) == Line(name + [' '], Join(fields, ','));
  }

  lemma Quotes(s: string)
    ensures Quoted(s) == InQuotes(s) && (',' !in s ==> ',' !in Quoted(s))
  {
  }

  // ----- The reports

  lemma CgdcontReads(dc: Dc)
    requires dc.cid != -1 && CommaFree(dc)
    ensures ReadReport("+CGDCONT: ", CgdcontReport(dc)) ==
            Some([Dec(dc.cid), InQuotes(dc.pdpType), InQuotes(dc.apn), InQuotes(dc.pdpAddr), Dec(dc.dComp),
                  Dec(dc.hComp)])
  {
    Quotes(dc.pdpType);
    Quotes(dc.apn);
    Quotes(dc.pdpAddr);
    SpacedLine("+CGDCONT:", [Dec(dc.cid), Quoted(dc.pdpType), Quoted(dc.apn), Quoted(dc.pdpAddr), Dec(dc.dComp),
                             Dec(dc.hComp)]);
    assert "+CGDCONT:" + [' '] == "+CGDCONT: ";
  }

  lemma XgauthReads(dc: Dc)
    requires dc.cid != -1 && CommaFree(dc)
    ensures ReadReport("+XGAUTH: ", XgauthReport(dc)) ==
            Some([Dec(dc.cid), Dec(dc.authMode), InQuotes(dc.authName), InQuotes(dc.authPwd)])
  {
    Quotes(dc.authName);
    Quotes(dc.authPwd);
    SpacedLine("+XGAUTH:", [Dec(dc.cid), Dec(dc.authMode), Quoted(dc.authName), Quoted(dc.authPwd)]);
    assert "+XGAUTH:" + [' '] == "+XGAUTH: ";
  }

  /** Without a defined cid the three queries answer with their name alone. */
  lemma UndefinedReads(dc: Dc)
    requires dc.cid == -1
    ensures ReadReport("+CGDCONT:", CgdcontReport(dc)) == Some([""])
    ensures ReadReport("+XGAUTH:", XgauthReport(dc)) == Some([""])
    ensures ReadReport("+CGACT:", CgactReport(dc)) == Some([""])
  {
    NothingReads("+CGDCONT:");
    NothingReads("+XGAUTH:");
    NothingReads("+CGACT:");
  }

  lemma NothingReads(name: string)
    ensures ReadReport(name, Line(name, "")) == Some([""])
  {
    LineFramed(name, "");
    ReadFramed(name, "");
  }

  lemma CgactReads(dc: Dc)
    requires dc.cid != -1
    ensures ReadReport("+CGACT: ", CgactReport(dc)) == Some([Dec(dc.cid), if dc.activated then "1" else "0"])
  {
    SpacedLine("+CGACT:", [Dec(dc.cid), if dc.activated then "1" else "0"]);
    assert "+CGACT:" + [' '] == "+CGACT: ";
  }

  lemma CidReads(name: string, dc: Dc)
    ensures ReadReport(name, CidReport(name, dc)) == Some([if dc.activated then Dec(dc.cid) else ""])
  {
    if dc.activated {
      ReadLine(name, [Dec(dc.cid)]);
    } else {
      NothingReads(name);
    }
  }

  lemma CgpaddrReads(dc: Dc)
    requires CommaFree(dc)
    ensures ReadReport("+CGPADDR: ", CgpaddrReport(dc)) == Some([Dec(dc.cid), InQuotes(dc.pdpAddr)])
  {
    Quotes(dc.pdpAddr);
    ReadLine("+CGPADDR: ", [Dec(dc.cid), Quoted(dc.pdpAddr)]);
  }

  lemma CgcontrdpReads(dc: Dc)
    requires CommaFree(dc)
    ensures ReadReport("+CGCONTRDP: ", CgcontrdpReport(dc)) ==
            Some([Dec(dc.cid), "0", InQuotes(dc.apn), InQuotes(dc.pdpAddr), InQuotes(dc.pdpAddr), InQuotes(dc.dns1),
                  InQuotes(dc.dns2)])
  {
    Quotes(dc.apn);
    Quotes(dc.pdpAddr);
    Quotes(dc.dns1);
    Quotes(dc.dns2);
    ReadLine("+CGCONTRDP: ", [Dec(dc.cid), "0", Quoted(dc.apn), Quoted(dc.pdpAddr), Quoted(dc.pdpAddr),
                              Quoted(dc.dns1), Quoted(dc.dns2)]);
  }

  lemma SradcReads(channel: int)
    ensures ReadReport("^SRADC: ", SradcReport(channel)) == Some([Dec(channel), "1", "875"])
  {
    ReadLine("^SRADC: ", [Dec(channel), "1", "875"]);
  }
}
