/** The record as the C format string writes and reads it, and the file and buffers around it
    (core/src/NetconfLinuxPersistence.cpp). */
module RecordFormat {
  import opened Text
  import opened Scanf
  import opened DcContexts
  import opened Persistence
  import opened Recovery

  // ----- Format strings

  /** The directives of a format string. */
  function Directives(fmt: string): seq<Directive> {
    if |fmt| == 0 then []
    else if |fmt| >= 2 && fmt[0] == '%' && fmt[1] == 'd' then [Int] + Directives(fmt[2..])
    else if |fmt| >= 2 && fmt[0] == '%' && fmt[1] == 's' then [Str] + Directives(fmt[2..])
    else [if fmt[0] == ' ' then White else Lit(fmt[0])] + Directives(fmt[1..])
  }

  /** What snprintf prints for these values; a missing value prints nothing. */
  function Printed(fmt: seq<Directive>, values: seq<Item>): string {
    if |fmt| == 0 then ""
    else
      match fmt[0]
      case Lit(c) => [c] + Printed(fmt[1..], values)
      case White => [' '] + Printed(fmt[1..], values)
      case Int => Value(values) + Printed(fmt[1..], Rest(values))
      case Str => Value(values) + Printed(fmt[1..], Rest(values))
  }

  function Value(values: seq<Item>): string {
    if |values| == 0 then "" else if values[0].Number? then Dec(values[0].n) else values[0].s
  }

  function Rest(values: seq<Item>): seq<Item> {
    if |values| == 0 then [] else values[1..]
  }

  /** "cid=%d apn=%s pdptype=%s auth=%d name=%s pwd=%s ", piece by piece. */
  const STORE_FORMAT := "cid=" + ("%d" + (" " + ("apn=" + ("%s" + (" " + ("pdptype=" + ("%s" + (" " + ("auth="
                        + ("%d" + (" " + ("name=" + ("%s" + (" " + ("pwd=" + ("%s" + " "))))))))))))))))

  /** "cid=%d apn=%s pdptype=%s auth=%d". */
  const FALLBACK_FORMAT := "cid=" + ("%d" + (" " + ("apn=" + ("%s" + (" " + ("pdptype=" + ("%s" + (" " + ("auth="
                           + "%d")))))))))

  lemma {:induction false} TextDirectives(text: string, rest: string)
    requires forall i :: 0 <= i < |text| ==> text[i] != '%'
    ensures Directives(text + rest) == Format(text) + Directives(rest)
  {
    if |text| == 0 {
      assert text + rest == rest && Format(text) + Directives(rest) == Directives(rest);
    } else {
      assert (text + rest)[1..] == text[1..] + rest;
      TextDirectives(text[1..], rest);
      assert Format(text) == [Format(text)[0]] + Format(text[1..]);
    }
  }

  lemma Conversion(c: char, rest: string)
    requires c == 'd' || c == 's'
    ensures Directives(['%', c] + rest) == [if c == 'd' then Int else Str] + Directives(rest)
  {
    assert (['%', c] + rest)[2..] == rest;
  }

  lemma Blank1(rest: string)
    ensures Directives(" " + rest) == [White] + Directives(rest)
  {
    assert (" " + rest)[1..] == rest;
  }

  /** A field of a format: its field, its conversion, and what follows. */
  lemma FieldDirectives(field: string, c: char, rest: string)
    requires (c == 'd' || c == 's') && forall i :: 0 <= i < |field| ==> field[i] != '%'
    ensures Directives(field + (['%', c] + rest))
         == Format(field) + ([if c == 'd' then Int else Str] + Directives(rest))
  {
    TextDirectives(field, ['%', c] + rest);
    Conversion(c, rest);
  }

  /** The formats that the scans use are those two strings. */
  lemma FormatsAreRead()
    ensures Directives(STORE_FORMAT) == FullFormat()
    ensures Directives(FALLBACK_FORMAT) == ShortFormat()
  {
    CredentialsAreRead();
    DefinitionIsRead(" " + ("name=" + ("%s" + (" " + ("pwd=" + ("%s" + " "))))));
    ShortIsRead();
  }

  lemma CredentialsAreRead()
    ensures Directives(" " + ("name=" + ("%s" + (" " + ("pwd=" + ("%s" + " ")))))) == CredentialsFormat()
  {
    var blank := " ";
    assert blank + "" == blank && |Directives("")| == 0;
    Blank1("");
    FieldDirectives("pwd=", 's', blank);
    Blank1("pwd=" + ("%s" + blank));
    FieldDirectives("name=", 's', " " + ("pwd=" + ("%s" + blank)));
    Blank1("name=" + ("%s" + (" " + ("pwd=" + ("%s" + blank)))));
  }

  lemma TypeIsRead(rest: string)
    ensures Directives("pdptype=" + ("%s" + (" " + ("auth=" + ("%d" + rest))))) == TypeAndModeFormat(Directives(rest))
  {
    FieldDirectives("auth=", 'd', rest);
    Blank1("auth=" + ("%d" + rest));
    FieldDirectives("pdptype=", 's', " " + ("auth=" + ("%d" + rest)));
  }

  lemma DefinitionIsRead(rest: string)
    ensures Directives("cid=" + ("%d" + (" " + ("apn=" + ("%s" + (" " + ("pdptype=" + ("%s" + (" " + ("auth="
                       + ("%d" + rest))))))))))) == DefinitionFormat(Directives(rest))
  {
    var f2 := "pdptype=" + ("%s" + (" " + ("auth=" + ("%d" + rest))));
    TypeIsRead(rest);
    Blank1(f2);
    FieldDirectives("apn=", 's', " " + f2);
    Blank1("apn=" + ("%s" + (" " + f2)));
    FieldDirectives("cid=", 'd', " " + ("apn=" + ("%s" + (" " + f2))));
  }

  lemma ShortIsRead()
    ensures Directives(FALLBACK_FORMAT) == ShortFormat()
  {
    assert "%d" + "" == "%d";
    DefinitionIsRead("");
  }

  // ----- Printing

  lemma {:induction false} TextPrinted(text: string, rest: seq<Directive>, values: seq<Item>)
    ensures Printed(Format(text) + rest, values) == text + Printed(rest, values)
  {
    if |text| == 0 {
      assert Format(text) + rest == rest && text + Printed(rest, values) == Printed(rest, values);
    } else {
      assert (Format(text) + rest)[1..] == Format(text[1..]) + rest;
      TextPrinted(text[1..], rest, values);
      HeadAndTail(text, Printed(rest, values));
    }
  }

  lemma FieldPrinted(field: string, d: Directive, rest: seq<Directive>, value: Item, values: seq<Item>)
    requires d == Int || d == Str
    ensures Printed(Format(field) + ([d] + rest), [value] + values)
         == field + ((if value.Number? then Dec(value.n) else value.s) + Printed(rest, values))
  {
    TextPrinted(field, [d] + rest, [value] + values);
    assert ([d] + rest)[1..] == rest && ([value] + values)[1..] == values;
  }

  lemma BlankPrinted(rest: seq<Directive>, values: seq<Item>)
    ensures Printed([White] + rest, values) == [' '] + Printed(rest, values)
  {
    assert ([White] + rest)[1..] == rest;
  }

  lemma CredentialsPrinted(dc: Dc)
    ensures Printed(CredentialsFormat(), [Token(dc.authName)] + [Token(dc.authPwd)]) == Credentials(dc, "")
  {
    var none: seq<Item> := [];
    var f := [White] + (Format("pwd=") + ([Str] + [White]));
    assert [Token(dc.authPwd)] + none == [Token(dc.authPwd)] && [White] + [] == [White];
    BlankPrinted([], none);
    FieldPrinted("pwd=", Str, [White], Token(dc.authPwd), none);
    BlankPrinted(Format("pwd=") + ([Str] + [White]), [Token(dc.authPwd)]);
    FieldPrinted("name=", Str, f, Token(dc.authName), [Token(dc.authPwd)]);
    BlankPrinted(Format("name=") + ([Str] + f), [Token(dc.authName)] + [Token(dc.authPwd)]);
    assert [' '] + "" == [' '];
  }

  lemma DefinitionPrinted(dc: Dc, more: seq<Directive>, values: seq<Item>)
    ensures Printed(DefinitionFormat(more), [Number(dc.cid)] + ([Token(dc.apn)] + ([Token(dc.pdpType)]
                    + ([Number(dc.authMode)] + values)))) == Definition(dc, Printed(more, values))
  {
    var v1 := [Number(dc.authMode)] + values;
    var v2 := [Token(dc.pdpType)] + v1;
    var f1 := Format("auth=") + ([Int] + more);
    FieldPrinted("auth=", Int, more, Number(dc.authMode), values);
    BlankPrinted(f1, v1);
    FieldPrinted("pdptype=", Str, [White] + f1, Token(dc.pdpType), v1);
    BlankPrinted(TypeAndModeFormat(more), v2);
    FieldPrinted("apn=", Str, [White] + TypeAndModeFormat(more), Token(dc.apn), v2);
    var f3 := Format("apn=") + ([Str] + ([White] + TypeAndModeFormat(more)));
    BlankPrinted(f3, [Token(dc.apn)] + v2);
    FieldPrinted("cid=", Int, [White] + f3, Number(dc.cid), [Token(dc.apn)] + v2);
  }

  /** The record is what that format string prints for the six fields, in this order. */
  lemma RecordIsPrinted(dc: Dc)
    ensures Record(dc) == Printed(Directives(STORE_FORMAT),
                                  [Number(dc.cid)] + ([Token(dc.apn)] + ([Token(dc.pdpType)] + ([Number(dc.authMode)]
                                  + ([Token(dc.authName)] + [Token(dc.authPwd)])))))
  {
    FormatsAreRead();
    CredentialsPrinted(dc);
    DefinitionPrinted(dc, CredentialsFormat(), [Token(dc.authName)] + [Token(dc.authPwd)]);
  }

  // ----- The file and the buffers

  /** A store overwrites the front of the file; the file never gets shorter and the rest stays. */
  lemma StaleBytesStay(file: string, bytes: string)
    ensures var after := Overwrite(Some(file), bytes);
            && |after| == (if |bytes| > |file| then |bytes| else |file|)
            && bytes <= after && forall i :: |bytes| <= i < |file| ==> after[i] == file[i]
    ensures Overwrite(None, bytes) == bytes
  {
    assert bytes + "" == bytes;
  }

  /** The print goes through a buffer of 512: up to 511 characters it is written whole, past that
      its first 511, a NUL and the memory behind the buffer. */
  lemma PrintIsCut(record: string, memory: string)
    ensures |record| <= 511 ==> Written(record, memory) == record
    ensures |record| > 511 ==> Written(record, memory) == record[..511] + (['\0'] + memory)
  {
  }

  /** A load looks at the first 512 bytes and the memory behind them, up to a NUL; a file that is
      missing or empty loads nothing. */
  lemma ReadIsCut(dc: Dc, file: string, junk: string)
    ensures |file| <= 512 ==> Buffer(file, junk) == CStr(file + junk)
    ensures |file| > 512 ==> Buffer(file, junk) == CStr(file[..512] + junk)
    ensures Load(dc, None, junk) == None && Load(dc, Some(""), junk) == None
  {
  }

  /** The bytes a shorter record leaves of a longer one are read for its empty password: storing
      again without a password brings back a word of the record before. */
  lemma StalePassword(dc: Dc, before: Dc, after: Dc, memory: string, junk: string)
    requires Storable(before) && Loadable(after) && |Record(after)| < |Record(before)| <= 511
    requires Clean(after.authName) && after.authPwd == ""
    ensures var file := Overwrite(Some(Record(before)), Written(Record(after), memory));
            var tail := Record(before)[|Record(after)|..] + CStr(junk);
            && Load(dc, Some(file), junk).Some?
            && (FirstWord(tail) != "" ==> Load(dc, Some(file), junk).value.authPwd == FirstWord(tail))
  {
    var stale := Record(before)[|Record(after)|..];
    var file := Record(after) + stale;
    assert Overwrite(Some(Record(before)), Written(Record(after), memory)) == file;
    assert file[|Record(after)|..] == stale;
    LoadExactly(dc, after, file, junk);
    assert forall c <- stale :: c in Record(before);
    CStrPrefix(stale, junk);
    LeftByCases((dc.authName, dc.authPwd), after, Tail(file, after, junk));
  }
}
