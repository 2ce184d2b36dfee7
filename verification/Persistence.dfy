/** The persisted context record (core/src/NetconfLinuxPersistence.cpp): one line of text,
    written over a file that is never truncated and scanned back from a buffer that is
    never terminated. */
module Persistence {
  import opened Text
  import opened Scanf
  import opened DcContexts

  /** Size of the buffers of storeDcContext and loadDcContext. */
  const BUF_SIZE := 512

  // ----- The record and its two formats

  /** The first four fields, followed by rest. */
  function Definition(dc: Dc, rest: string): string {
    "cid=" + (Dec(dc.cid) + ([' '] + ("apn=" + (dc.apn + ([' '] + TypeAndMode(dc, rest))))))
  }

  function TypeAndMode(dc: Dc, rest: string): string {
    "pdptype=" + (dc.pdpType + ([' '] + ("auth=" + (Dec(dc.authMode) + rest))))
  }

  /** The last two fields, followed by rest. */
  function Credentials(dc: Dc, rest: string): string {
    [' '] + ("name=" + (dc.authName + ([' '] + ("pwd=" + (dc.authPwd + ([' '] + rest))))))
  }

  function Record(dc: Dc): string {
    Definition(dc, Credentials(dc, ""))
  }

  /** "cid=%d apn=%s pdptype=%s auth=%d", followed by more. */
  function DefinitionFormat(more: seq<Directive>): seq<Directive> {
    Format("cid=") + ([Int] + ([White] + (Format("apn=") + ([Str] + ([White] + TypeAndModeFormat(more))))))
  }

  function TypeAndModeFormat(more: seq<Directive>): seq<Directive> {
    Format("pdptype=") + ([Str] + ([White] + (Format("auth=") + ([Int] + more))))
  }

  /** " name=%s pwd=%s ". */
  function CredentialsFormat(): seq<Directive> {
    [White] + (Format("name=") + ([Str] + ([White] + (Format("pwd=") + ([Str] + [White])))))
  }

  function FullFormat(): seq<Directive> {
    DefinitionFormat(CredentialsFormat())
  }

  function ShortFormat(): seq<Directive> {
    DefinitionFormat([])
  }

  lemma ShortShape()
    ensures Conversions(ShortFormat()) == [Int, Str, Str, Int]
  {
    DefinitionShape([]);
  }

  lemma FullShape()
    ensures Conversions(FullFormat()) == [Int, Str, Str, Int, Str, Str]
  {
    DefinitionShape(CredentialsFormat());
    CredentialsShape();
  }

  lemma FullExtendsShort()
    ensures FullFormat() == ShortFormat() + CredentialsFormat()
  {
    var none: seq<Directive> := [];
    DefinitionConcat(none, CredentialsFormat());
    assert none + CredentialsFormat() == CredentialsFormat();
  }

  lemma FormatShapes()
    ensures Conversions(ShortFormat()) == [Int, Str, Str, Int]
    ensures Conversions(FullFormat()) == [Int, Str, Str, Int, Str, Str]
    ensures FullFormat() == ShortFormat() + CredentialsFormat()
  {
    ShortShape();
    FullShape();
    FullExtendsShort();
  }

  lemma LiteralShape(text: string, more: seq<Directive>)
    ensures Conversions(Format(text) + more) == Conversions(more)
  {
    ConversionsConcat(Format(text), more);
    FormatHasNoConversion(text);
  }

  lemma DirectiveShape(d: Directive, more: seq<Directive>)
    ensures Conversions([d] + more) == if d.Int? || d.Str? then [d] + Conversions(more) else Conversions(more)
  {
    assert ([d] + more)[1..] == more;
  }

  lemma TypeAndModeShape(more: seq<Directive>)
    ensures Conversions(TypeAndModeFormat(more)) == [Str] + ([Int] + Conversions(more))
  {
    var f3 := [Int] + more;
    var f2 := Format("auth=") + f3;
    var f1 := [White] + f2;
    var f0 := [Str] + f1;
    DirectiveShape(Int, more);
    LiteralShape("auth=", f3);
    DirectiveShape(White, f2);
    DirectiveShape(Str, f1);
    LiteralShape("pdptype=", f0);
  }

  lemma DefinitionShape(more: seq<Directive>)
    ensures Conversions(DefinitionFormat(more)) == [Int] + ([Str] + ([Str] + ([Int] + Conversions(more))))
  {
    var f5 := TypeAndModeFormat(more);
    var f4 := [White] + f5;
    var f3 := [Str] + f4;
    var f2 := Format("apn=") + f3;
    var f1 := [White] + f2;
    var f0 := [Int] + f1;
    TypeAndModeShape(more);
    DirectiveShape(White, f5);
    DirectiveShape(Str, f4);
    LiteralShape("apn=", f3);
    DirectiveShape(White, f2);
    DirectiveShape(Int, f1);
    LiteralShape("cid=", f0);
  }

  lemma CredentialsShape()
    ensures Conversions(CredentialsFormat()) == [Str, Str]
  {
    var f4 := [Str] + [White];
    var f3 := Format("pwd=") + f4;
    var f2 := [White] + f3;
    var f1 := [Str] + f2;
    var f0 := Format("name=") + f1;
    DirectiveShape(White, []);
    assert [White] + [] == [White];
    DirectiveShape(Str, [White]);
    LiteralShape("pwd=", f4);
    DirectiveShape(White, f3);
    DirectiveShape(Str, f2);
    LiteralShape("name=", f1);
    DirectiveShape(White, f0);
  }

  lemma DefinitionConcat(a: seq<Directive>, b: seq<Directive>)
    ensures DefinitionFormat(a + b) == DefinitionFormat(a) + b
  {
  }

  // ----- Scanning a record back

  lemma ScanTypeAndMode(dc: Dc, more: seq<Directive>, rest: string)
    requires Clean(dc.pdpType) && (rest == "" || !IsDigit(rest[0]))
    ensures Scan(TypeAndModeFormat(more), TypeAndMode(dc, rest)) ==
            [Token(dc.pdpType)] + ([Number(dc.authMode)] + Scan(more, rest))
  {
    var f3, t3 := [Int] + more, Dec(dc.authMode) + rest;
    var f2, t2 := Format("auth=") + f3, "auth=" + t3;
    var f1, t1 := [White] + f2, [' '] + t2;
    var f0, t0 := [Str] + f1, dc.pdpType + t1;
    ScanNumber(more, dc.authMode, rest);
    ScanLiteral("auth=", f3, t3);
    ScanBlank(f2, t2);
    ScanToken(f1, dc.pdpType, t1);
    ScanLiteral("pdptype=", f0, t0);
  }

  lemma ScanCid(cid: int, fmt: seq<Directive>, text: string)
    requires text != "" && !IsSpace(text[0])
    ensures Scan(Format("cid=") + ([Int] + ([White] + fmt)), "cid=" + (Dec(cid) + ([' '] + text))) ==
            [Number(cid)] + Scan(fmt, text)
  {
    ScanBlank(fmt, text);
    ScanNumber([White] + fmt, cid, [' '] + text);
    ScanLiteral("cid=", [Int] + ([White] + fmt), Dec(cid) + ([' '] + text));
  }

  lemma ScanName(dc: Dc, more: seq<Directive>, rest: string)
    requires Clean(dc.apn) && Clean(dc.pdpType) && (rest == "" || !IsDigit(rest[0]))
    ensures Scan([Str] + ([White] + TypeAndModeFormat(more)), dc.apn + ([' '] + TypeAndMode(dc, rest))) ==
            [Token(dc.apn)] + ([Token(dc.pdpType)] + ([Number(dc.authMode)] + Scan(more, rest)))
  {
    var f, t := TypeAndModeFormat(more), TypeAndMode(dc, rest);
    ScanTypeAndMode(dc, more, rest);
    ScanBlank(f, t);
    ScanToken([White] + f, dc.apn, [' '] + t);
  }

  lemma ScanDefinition(dc: Dc, more: seq<Directive>, rest: string)
    requires Clean(dc.apn) && Clean(dc.pdpType) && (rest == "" || !IsDigit(rest[0]))
    ensures Scan(DefinitionFormat(more), Definition(dc, rest)) ==
            [Number(dc.cid)] + ([Token(dc.apn)] + ([Token(dc.pdpType)] + ([Number(dc.authMode)] + Scan(more, rest))))
  {
    var f, t := [Str] + ([White] + TypeAndModeFormat(more)), dc.apn + ([' '] + TypeAndMode(dc, rest));
    ScanName(dc, more, rest);
    ScanLiteral("apn=", f, t);
    ScanCid(dc.cid, Format("apn=") + f, "apn=" + t);
  }

  lemma ScanCredentials(dc: Dc, rest: string)
    requires Clean(dc.authName) && Clean(dc.authPwd)
    ensures Scan(CredentialsFormat(), Credentials(dc, rest)) == [Token(dc.authName), Token(dc.authPwd)]
  {
    var f4, t4 := [Str] + [White], dc.authPwd + ([' '] + rest);
    var f3, t3 := Format("pwd=") + f4, "pwd=" + t4;
    var f2, t2 := [White] + f3, [' '] + t3;
    var f1, t1 := [Str] + f2, dc.authName + t2;
    var f0, t0 := Format("name=") + f1, "name=" + t1;
    assert Scan([White], [' '] + rest) == [];
    ScanToken([White], dc.authPwd, [' '] + rest);
    ScanLiteral("pwd=", f4, t4);
    ScanBlank(f3, t3);
    ScanToken(f2, dc.authName, t2);
    ScanLiteral("name=", f1, t1);
    ScanBlank(f0, t0);
  }

  lemma RecordThen(dc: Dc, tail: string)
    ensures Record(dc) + tail == Definition(dc, Credentials(dc, tail))
  {
    CredentialsThen(dc, tail);
    DefinitionThen(dc, Credentials(dc, ""), tail);
  }

  lemma CredentialsThen(dc: Dc, tail: string)
    ensures Credentials(dc, "") + tail == Credentials(dc, tail)
  {
  }

  lemma DefinitionThen(dc: Dc, rest: string, tail: string)
    ensures Definition(dc, rest) + tail == Definition(dc, rest + tail)
  {
  }

  // ----- Loading

  /** The fields of a record in order, perhaps not all of them. */
  predicate Fields(items: seq<Item>) {
    |items| <= 6 &&
    forall i :: 0 <= i < |items| ==> if i == 0 || i == 3 then items[i].Number? else items[i].Token? && Clean(items[i].s)
  }

  /** Whatever the text, both formats scan to fields in order, and the shorter to a prefix. */
  lemma ScanFields(text: string)
    ensures Fields(Scan(FullFormat(), text)) && |Scan(ShortFormat(), text)| <= 4
    ensures Scan(ShortFormat(), text) <= Scan(FullFormat(), text)
  {
    FormatShapes();
    ScanShape(FullFormat(), text);
    ScanShape(ShortFormat(), text);
    ScanPrefix(ShortFormat(), CredentialsFormat(), text);
  }

  function SetDefinition(dc: Dc, items: seq<Item>): Dc
    requires |items| >= 4 && Fields(items)
  {
    dc.(cid := items[0].n, apn := items[1].s, pdpType := items[2].s, authMode := items[3].n)
  }

  /** The context after both sscanf attempts on text; None when both fail. */
  function Apply(dc: Dc, text: string): Option<Dc> {
    ScanFields(text);
    var six := Scan(FullFormat(), text);
    var four := Scan(ShortFormat(), text);
    if |six| == 6 then Some(SetDefinition(dc, six).(authName := six[4].s, authPwd := six[5].s))
    else if |four| == 4 then Some(SetDefinition(dc, four))
    else None
  }

  /** What sscanf sees: the first 512 bytes of the file, then whatever memory holds. */
  function Buffer(file: string, junk: string): string {
    CStr((if |file| > BUF_SIZE then file[..BUF_SIZE] else file) + junk)
  }

  /** loadDcContext: None when it returns false. */
  function Load(dc: Dc, file: Option<string>, junk: string): Option<Dc> {
    if file == None || |file.value| == 0 then None else Apply(dc, Buffer(file.value, junk))
  }

  // ----- Storing

  /** What write() takes: past 511 characters the print is cut, and the count runs on into memory. */
  function Written(record: string, memory: string): string {
    if |record| < BUF_SIZE then record else record[..BUF_SIZE - 1] + ['\0'] + memory
  }

  /** Writing at offset 0 of a file that keeps its length. */
  function Overwrite(file: Option<string>, bytes: string): string {
    bytes + if file.Some? && |file.value| > |bytes| then file.value[|bytes|..] else ""
  }

  // ----- What a load returns

  /** A record that is stored as it is: no NUL, and short enough for the buffers. */
  predicate Storable(dc: Dc) {
    '\0' !in Record(dc) && |Record(dc)| < BUF_SIZE
  }

  /** One that also loads back. */
  predicate Loadable(dc: Dc) {
    Clean(dc.apn) && Clean(dc.pdpType) && Storable(dc)
  }

  lemma BufferTail(dc: Dc, stale: string, junk: string) returns (tail: string)
    requires Loadable(dc)
    ensures Buffer(Record(dc) + stale, junk) == Definition(dc, Credentials(dc, tail))
  {
    var file := Record(dc) + stale;
    var raw := (if |file| > BUF_SIZE then file[..BUF_SIZE] else file) + junk;
    var rest := raw[|Record(dc)|..];
    assert raw == Record(dc) + rest;
    CStrPrefix(Record(dc), rest);
    tail := CStr(rest);
    RecordThen(dc, tail);
  }

  /** Whatever follows the record, the definition comes back, through either format; name
      and password come back scanned exactly when both are clean. */
  lemma ApplyRecord(dc: Dc, stored: Dc, tail: string)
    requires Clean(stored.apn) && Clean(stored.pdpType)
    ensures var r := Apply(dc, Definition(stored, Credentials(stored, tail)));
            && r.Some?
            && r.value == dc.(cid := stored.cid, apn := stored.apn, pdpType := stored.pdpType,
                              authMode := stored.authMode, authName := r.value.authName, authPwd := r.value.authPwd)
            && (Clean(stored.authName) && Clean(stored.authPwd) ==>
                  r.value.authName == stored.authName && r.value.authPwd == stored.authPwd)
  {
    ScanDefinition(stored, [], Credentials(stored, tail));
    ScanDefinition(stored, CredentialsFormat(), Credentials(stored, tail));
    if Clean(stored.authName) && Clean(stored.authPwd) {
      ScanCredentials(stored, tail);
    }
  }

  /** Name and password as the six-field scan finds them. */
  function ScannedCredentials(text: string): Option<(string, string)> {
    ScanFields(text);
    var six := Scan(FullFormat(), text);
    if |six| == 6 then Some((six[4].s, six[5].s)) else None
  }

  /** The six-field scan recovers name and password exactly when both are non-empty and free
      of white space, whatever follows the record. */
  lemma CredentialsRecovered(stored: Dc, tail: string)
    requires Clean(stored.apn) && Clean(stored.pdpType)
    ensures ScannedCredentials(Definition(stored, Credentials(stored, tail))) == Some((stored.authName, stored.authPwd))
        <==> Clean(stored.authName) && Clean(stored.authPwd)
  {
    var text := Definition(stored, Credentials(stored, tail));
    ScanFields(text);
    if Clean(stored.authName) && Clean(stored.authPwd) {
      ScanDefinition(stored, CredentialsFormat(), Credentials(stored, tail));
      ScanCredentials(stored, tail);
    }
  }

  /** With both credentials empty, stale bytes that spell a password field are taken for them. */
  lemma EmptyCredentialsTakeStaleBytes(dc: Dc, stored: Dc, word: string, more: string)
    requires Clean(stored.apn) && Clean(stored.pdpType) && stored.authName == "" && stored.authPwd == ""
    requires Clean(word) && (more == "" || IsSpace(more[0]))
    ensures var r := Apply(dc, Definition(stored, Credentials(stored, "pwd=" + (word + more))));
            r.Some? && r.value.authName == "pwd=" && r.value.authPwd == word
  {
    var stale := "pwd=" + (word + more);
    ScanStaleCredentials(stored, word, more);
    ScanDefinition(stored, CredentialsFormat(), Credentials(stored, stale));
  }

  lemma ScanStaleCredentials(stored: Dc, word: string, more: string)
    requires stored.authName == "" && stored.authPwd == "" && Clean(word) && (more == "" || IsSpace(more[0]))
    ensures Scan(CredentialsFormat(), Credentials(stored, "pwd=" + (word + more))) == [Token("pwd="), Token(word)]
  {
    var name := "pwd=";
    var stale := name + (word + more);
    var f4 := [Str] + [White];
    var f3 := Format("pwd=") + f4;
    var f2 := [White] + f3;
    var f1 := [Str] + f2;
    var t2 := [' '] + stale;
    EmptyCredentials(stored, stale);
    ScanToken([White], word, more);
    assert Scan([White], more) == [];
    ScanLiteral("pwd=", f4, word + more);
    ScanBlank(f3, stale);
    ScanToken(f2, name, t2);
    SkipBlank(f1, name + t2);
    ScanLiteral("name=", f1, [' '] + (name + t2));
    ScanBlank(Format("name=") + f1, "name=" + ([' '] + (name + t2)));
  }

  lemma EmptyCredentials(stored: Dc, rest: string)
    requires stored.authName == "" && stored.authPwd == ""
    ensures Credentials(stored, rest) == [' '] + ("name=" + ([' '] + ("pwd=" + ([' '] + rest))))
  {
    assert stored.authPwd + ([' '] + rest) == [' '] + rest;
    var s := [' '] + ("pwd=" + ([' '] + rest));
    assert stored.authName + s == s;
  }

  /** "%s" skips a blank before the token. */
  lemma SkipBlank(fmt: seq<Directive>, s: string)
    requires |fmt| > 0 && fmt[0] == Str && s != "" && !IsSpace(s[0])
    ensures Scan(fmt, [' '] + s) == Scan(fmt, s)
  {
    assert ([' '] + s)[1..] == s;
  }

  // ----- Any history of stores

  /** The file after a history of successful stores, each with the memory next to its buffer. */
  function Replay(file: Option<string>, history: seq<(Dc, string)>): Option<string> {
    if |history| == 0 then file
    else
      var (dc, memory) := history[|history| - 1];
      Some(Overwrite(Replay(file, DropLast(history)), Written(Record(dc), memory)))
  }

  /** A file that starts with a loadable record loads it, whatever follows. */
  lemma LoadRecord(dc: Dc, stored: Dc, file: string, junk: string)
    requires Loadable(stored) && Record(stored) <= file
    ensures var r := Load(dc, Some(file), junk);
            && r.Some?
            && r.value == dc.(cid := stored.cid, apn := stored.apn, pdpType := stored.pdpType,
                              authMode := stored.authMode, authName := r.value.authName, authPwd := r.value.authPwd)
            && (Clean(stored.authName) && Clean(stored.authPwd) ==>
                  r.value.authName == stored.authName && r.value.authPwd == stored.authPwd)
  {
    var stale := file[|Record(stored)|..];
    assert file == Record(stored) + stale;
    var tail := BufferTail(stored, stale, junk);
    ApplyRecord(dc, stored, tail);
    assert |Record(stored)| > 0;
  }

  /** After any history on a file that is never truncated, load returns the last store. */
  lemma LoadAfterHistory(dc: Dc, file: Option<string>, history: seq<(Dc, string)>, junk: string)
    requires history != [] && Loadable(history[|history| - 1].0)
    ensures var stored := history[|history| - 1].0;
            var r := Load(dc, Replay(file, history), junk);
            && r.Some?
            && r.value == dc.(cid := stored.cid, apn := stored.apn, pdpType := stored.pdpType,
                              authMode := stored.authMode, authName := r.value.authName, authPwd := r.value.authPwd)
            && (Clean(stored.authName) && Clean(stored.authPwd) ==>
                  r.value.authName == stored.authName && r.value.authPwd == stored.authPwd)
  {
    var stored := history[|history| - 1].0;
    LoadRecord(dc, stored, Replay(file, history).value, junk);
  }

  // ----- The operations on objects

  class NetconfLinuxPersistence {
    /** The bytes of dc_ctx; None when there is no such file. */
    var file: Option<string>

    constructor ()
      ensures file == None
    {
      file := None;
    }

    /** ok tells whether open and write succeeded. */
    method StoreDcContext(dc: DcContext, ok: bool, memory: string) returns (ret: bool)
      modifies this
      ensures ret == ok
      ensures file == if ok then Some(Overwrite(old(file), Written(Record(dc.Value()), memory))) else old(file)
    {
      ret := false;
      var buff := Written(Record(dc.Value()), memory);
      if ok {
        var stale := if file.Some? && |file.value| > |buff| then file.value[|buff|..] else "";
        file := Some(buff + stale);
        ret := true;
      }
    }

    /** junk is the memory behind the bytes that were read. */
    method LoadDcContext(dc: DcContext, junk: string) returns (ret: bool)
      modifies dc
      ensures ret == Load(old(dc.Value()), file, junk).Some?
      ensures dc.Value() == if ret then Load(old(dc.Value()), file, junk).value else old(dc.Value())
    {
      ret := false;
      if file.Some? && |file.value| > 0 {
        var buff := Buffer(file.value, junk);
        ScanFields(buff);
        var six := Scan(FullFormat(), buff);
        if |six| == 6 {
          dc.cid, dc.apn, dc.pdpType, dc.authMode := six[0].n, six[1].s, six[2].s, six[3].n;
          dc.authName, dc.authPwd := six[4].s, six[5].s;
          ret := true;
        } else {
          var four := Scan(ShortFormat(), buff);
          if |four| == 4 {
            dc.cid, dc.apn, dc.pdpType, dc.authMode := four[0].n, four[1].s, four[2].s, four[3].n;
            ret := true;
          }
        }
      }
    }
  }
}
