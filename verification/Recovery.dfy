/** The name and password a load leaves, whatever was stored and whatever follows the record. */
module Recovery {
  import opened Text
  import opened Scanf
  import opened DcContexts
  import opened Persistence

  // ----- Tokens

  predicate Blank(s: string) {
    forall i :: 0 <= i < |s| ==> IsSpace(s[i])
  }

  /** The first word of s, "" if there is none, and what follows it. */
  function FirstWord(s: string): string {
    var t := SkipWhite(s);
    t[..TokenLength(t)]
  }

  function AfterWord(s: string): string {
    var t := SkipWhite(s);
    t[TokenLength(t)..]
  }

  /** The word after "pwd=", if s starts with that after white space. */
  function ReadPwd(s: string): Option<string> {
    var t := SkipWhite(s);
    if PWD <= t then NonEmpty(FirstWord(t[|PWD|..])) else None
  }

  function NonEmpty(s: string): Option<string> {
    if s != "" then Some(s) else None
  }

  const PWD := "pwd="

  lemma {:induction false} SkipBlankText(a: string, b: string)
    requires Blank(a)
    ensures SkipWhite(a + b) == SkipWhite(b)
  {
    if |a| == 0 {
      assert a + b == b;
    } else {
      assert (a + b)[1..] == a[1..] + b;
      SkipBlankText(a[1..], b);
    }
  }

  lemma {:induction false} SkipBeforeText(a: string, b: string)
    requires !Blank(a)
    ensures SkipWhite(a + b) == SkipWhite(a) + b && SkipWhite(a) != ""
  {
    if IsSpace(a[0]) {
      assert (a + b)[1..] == a[1..] + b;
      assert !Blank(a[1..]) by {
        var i :| 0 <= i < |a| && !IsSpace(a[i]);
        assert a[1..][i - 1] == a[i];
      }
      SkipBeforeText(a[1..], b);
    }
  }

  lemma {:induction false} WordBefore(a: string, b: string)
    requires b != "" && IsSpace(b[0])
    ensures TokenLength(a + b) == TokenLength(a)
  {
    if |a| == 0 {
      assert a + b == b;
    } else if !IsSpace(a[0]) {
      assert (a + b)[1..] == a[1..] + b;
      WordBefore(a[1..], b);
    }
  }

  /** The first word of a text with one, when white space follows the text. */
  lemma WordOfText(a: string, b: string)
    requires !Blank(a) && b != "" && IsSpace(b[0])
    ensures FirstWord(a + b) == FirstWord(a) != "" && AfterWord(a + b) == AfterWord(a) + b
  {
    SkipBeforeText(a, b);
    WordBefore(SkipWhite(a), b);
  }

  lemma WordAfterBlank(a: string, b: string)
    requires Blank(a)
    ensures FirstWord(a + b) == FirstWord(b) && AfterWord(a + b) == AfterWord(b) && ReadPwd(a + b) == ReadPwd(b)
  {
    SkipBlankText(a, b);
  }

  lemma WordAfterSpace(s: string)
    ensures FirstWord([' '] + s) == FirstWord(s) && AfterWord([' '] + s) == AfterWord(s)
    ensures ReadPwd([' '] + s) == ReadPwd(s)
  {
    assert ([' '] + s)[1..] == s;
  }

  lemma CleanWord(a: string)
    requires Clean(a)
    ensures !Blank(a) && FirstWord(a) == a && AfterWord(a) == ""
  {
    assert a + "" == a;
    TokenEnds(a, "");
  }

  // ----- What the scan of the credentials reads

  /** The word read as the name: from the name, or from the password field when that is blank. */
  function ReadName(name: string, pwd: string): string {
    if Blank(name) then PWD + pwd[..TokenLength(pwd)] else FirstWord(name)
  }

  /** The word read as the password, from whatever the name left: the password or the bytes after
      the record, or a password field that starts in the name or in those bytes. */
  function ReadPassword(name: string, pwd: string, tail: string): Option<string> {
    if Blank(name) then ReadPwd(pwd[TokenLength(pwd)..] + ([' '] + tail))
    else if Blank(AfterWord(name)) then NonEmpty(if Blank(pwd) then FirstWord(tail) else FirstWord(pwd))
    else ReadPwd(AfterWord(name) + PasswordField(pwd, tail))
  }

  function PasswordField(pwd: string, tail: string): string {
    [' '] + (PWD + (pwd + ([' '] + tail)))
  }

  function ReadItems(name: string, pwd: string, tail: string): seq<Item> {
    var word := ReadPassword(name, pwd, tail);
    [Token(ReadName(name, pwd))] + if word.Some? then [Token(word.value)] else []
  }

  lemma ScanWord(fmt: seq<Directive>, s: string)
    ensures Scan([Str] + fmt, s) == if FirstWord(s) == "" then [] else [Token(FirstWord(s))] + Scan(fmt, AfterWord(s))
  {
    assert ([Str] + fmt)[1..] == fmt;
  }

  lemma {:induction false} ScanOtherText(text: string, fmt: seq<Directive>, s: string)
    requires (forall i :: 0 <= i < |text| ==> text[i] != ' ') && !(text <= s)
    ensures Scan(Format(text) + fmt, s) == []
  {
    if |s| > 0 && s[0] == text[0] {
      assert (Format(text) + fmt)[1..] == Format(text[1..]) + fmt;
      ScanOtherText(text[1..], fmt, s[1..]);
    }
  }

  /** " pwd=%s " reads what ReadPwd says. */
  lemma ScanPwd(s: string)
    ensures Scan([White] + (Format(PWD) + ([Str] + [White])), s) ==
            if ReadPwd(s).Some? then [Token(ReadPwd(s).value)] else []
  {
    var rest := Format(PWD) + ([Str] + [White]);
    var t := SkipWhite(s);
    assert ([White] + rest)[1..] == rest;
    if PWD <= t {
      var u := t[|PWD|..];
      assert t == PWD + u;
      ScanLiteral(PWD, [Str] + [White], u);
      ScanWord([White], u);
      assert Scan([White], AfterWord(u)) == [];
    } else {
      ScanOtherText(PWD, [Str] + [White], t);
    }
  }

  /** The word after the blank that ends a field. */
  lemma WordOfField(a: string, b: string)
    ensures FirstWord(a + ([' '] + b)) == if Blank(a) then FirstWord(b) else FirstWord(a)
  {
    if Blank(a) {
      WordAfterBlank(a, [' '] + b);
      WordAfterSpace(b);
    } else {
      WordOfText(a, [' '] + b);
    }
  }

  lemma {:induction false} TokenStops(s: string)
    ensures TokenLength(s) < |s| ==> IsSpace(s[TokenLength(s)])
  {
    if |s| > 0 && !IsSpace(s[0]) {
      TokenStops(s[1..]);
    }
  }

  /** A word glued to the front of a text. */
  lemma WordGlued(front: string, a: string, b: string)
    requires Clean(front) && b != "" && IsSpace(b[0])
    ensures FirstWord(front + (a + b)) == front + a[..TokenLength(a)]
    ensures AfterWord(front + (a + b)) == a[TokenLength(a)..] + b
  {
    var n := TokenLength(a);
    var word, rest := front + a[..n], a[n..] + b;
    assert front + (a + b) == word + rest;
    TokenIsClean(a);
    TokenStops(a);
    TokenEnds(word, rest);
    assert (word + rest)[..|word|] == word && (word + rest)[|word|..] == rest;
  }

  /** With a blank name the word is the one that starts with the password field. */
  lemma WordOfPwd(pwd: string, tail: string)
    ensures FirstWord(PasswordField(pwd, tail)) == PWD + pwd[..TokenLength(pwd)]
    ensures AfterWord(PasswordField(pwd, tail)) == pwd[TokenLength(pwd)..] + ([' '] + tail)
  {
    GluedField(PWD, pwd, tail);
  }

  lemma GluedField(front: string, a: string, b: string)
    requires Clean(front)
    ensures FirstWord([' '] + (front + (a + ([' '] + b)))) == front + a[..TokenLength(a)]
    ensures AfterWord([' '] + (front + (a + ([' '] + b)))) == a[TokenLength(a)..] + ([' '] + b)
  {
    WordAfterSpace(front + (a + ([' '] + b)));
    WordGlued(front, a, [' '] + b);
  }

  /** The name and what is left for the password, by cases on the name. */
  lemma NameAndRest(name: string, pwd: string, tail: string)
    ensures var s := name + PasswordField(pwd, tail);
            FirstWord(s) == ReadName(name, pwd) != "" && ReadPwd(AfterWord(s)) == ReadPassword(name, pwd, tail)
  {
    var field := PasswordField(pwd, tail);
    if Blank(name) {
      WordAfterBlank(name, field);
      WordOfPwd(pwd, tail);
    } else {
      WordOfText(name, field);
      if Blank(AfterWord(name)) {
        var value := pwd + ([' '] + tail);
        WordAfterBlank(AfterWord(name), field);
        WordAfterSpace(PWD + value);
        assert SkipWhite(PWD + value) == PWD + value && (PWD + value)[|PWD|..] == value;
        WordOfField(pwd, tail);
      }
    }
  }

  lemma ScanCredentialsExactly(stored: Dc, tail: string)
    ensures Scan(CredentialsFormat(), Credentials(stored, tail)) == ReadItems(stored.authName, stored.authPwd, tail)
  {
    var f2 := [White] + (Format(PWD) + ([Str] + [White]));
    var f1 := [Str] + f2;
    var t1 := stored.authName + PasswordField(stored.authPwd, tail);
    ScanBlank(Format("name=") + f1, "name=" + t1);
    ScanLiteral("name=", f1, t1);
    ScanWord(f2, t1);
    NameAndRest(stored.authName, stored.authPwd, tail);
    ScanPwd(AfterWord(t1));
  }

  // ----- What a load leaves

  /** Name and password after a load into a context that held the given ones. */
  function LeftBy(held: (string, string), stored: Dc, tail: string): (string, string) {
    var word := ReadPassword(stored.authName, stored.authPwd, tail);
    if word.Some? then (ReadName(stored.authName, stored.authPwd), word.value) else held
  }

  /** The whole context after a load of a record, whatever follows it. */
  function Loaded(dc: Dc, stored: Dc, tail: string): Dc {
    var left := LeftBy((dc.authName, dc.authPwd), stored, tail);
    dc.(cid := stored.cid, apn := stored.apn, pdpType := stored.pdpType, authMode := stored.authMode,
        authName := left.0, authPwd := left.1)
  }

  lemma ApplyExactly(dc: Dc, stored: Dc, tail: string)
    requires Clean(stored.apn) && Clean(stored.pdpType)
    ensures Apply(dc, Definition(stored, Credentials(stored, tail))) == Some(Loaded(dc, stored, tail))
  {
    ScanDefinition(stored, [], Credentials(stored, tail));
    ScanDefinition(stored, CredentialsFormat(), Credentials(stored, tail));
    ScanCredentialsExactly(stored, tail);
  }

  /** The bytes that sscanf sees after the record: of the file, as far as it was read, and of memory. */
  function Tail(file: string, stored: Dc, junk: string): string
    requires |Record(stored)| <= |file| && |Record(stored)| < BUF_SIZE
  {
    CStr((if |file| > BUF_SIZE then file[..BUF_SIZE] else file)[|Record(stored)|..] + junk)
  }

  lemma BufferIs(stored: Dc, file: string, junk: string)
    requires Storable(stored) && Record(stored) <= file
    ensures Buffer(file, junk) == Definition(stored, Credentials(stored, Tail(file, stored, junk)))
  {
    var read := if |file| > BUF_SIZE then file[..BUF_SIZE] else file;
    var rest := read[|Record(stored)|..] + junk;
    assert read + junk == Record(stored) + rest;
    CStrPrefix(Record(stored), rest);
    RecordThen(stored, CStr(rest));
  }

  /** A load of any file that starts with a record, to the last field. */
  lemma LoadExactly(dc: Dc, stored: Dc, file: string, junk: string)
    requires Loadable(stored) && Record(stored) <= file
    ensures Load(dc, Some(file), junk) == Some(Loaded(dc, stored, Tail(file, stored, junk)))
  {
    BufferIs(stored, file, junk);
    ApplyExactly(dc, stored, Tail(file, stored, junk));
    assert |Record(stored)| > 0;
  }

  /** For the credentials without white space inside: both come back; an empty password is read
      from the bytes after the record; with an empty name the password field is taken for the
      name, and a password is looked for after the record. */
  lemma LeftByCases(held: (string, string), stored: Dc, tail: string)
    requires stored.authName == "" || Clean(stored.authName)
    requires stored.authPwd == "" || Clean(stored.authPwd)
    ensures var name, pwd := stored.authName, stored.authPwd;
            LeftBy(held, stored, tail) ==
            if name != "" && pwd != "" then (name, pwd)
            else if name != "" then if FirstWord(tail) != "" then (name, FirstWord(tail)) else held
            else if ReadPwd(tail).Some? then (PWD + pwd, ReadPwd(tail).value)
            else held
  {
    var name, pwd := stored.authName, stored.authPwd;
    if name != "" {
      CleanWord(name);
    }
    if pwd != "" {
      CleanWord(pwd);
      TokenEnds(pwd, "");
      assert pwd + "" == pwd;
    }
    if name == "" {
      assert TokenLength(pwd) == |pwd| && pwd[|pwd|..] + ([' '] + tail) == [' '] + tail;
      WordAfterSpace(tail);
    }
  }

  lemma WordsAreClean(name: string, pwd: string, tail: string)
    ensures Clean(ReadName(name, pwd))
    ensures ReadPassword(name, pwd, tail).Some? ==> Clean(ReadPassword(name, pwd, tail).value)
  {
    var stored := FRESH.(authName := name, authPwd := pwd);
    ScanCredentialsExactly(stored, tail);
    var items := Scan(CredentialsFormat(), Credentials(stored, tail));
    FormatShapes();
    CredentialsShape();
    ScanShape(CredentialsFormat(), Credentials(stored, tail));
    assert items[0].s == ReadName(name, pwd);
    if ReadPassword(name, pwd, tail).Some? {
      assert items[1].s == ReadPassword(name, pwd, tail).value;
    }
  }

  /** A load, its fallback included, leaves the stored name and password exactly when both are
      non-empty and free of white space, or no password is found and the context held them already. */
  lemma LoadRecoversExactly(dc: Dc, stored: Dc, file: string, junk: string)
    requires Loadable(stored) && Record(stored) <= file
    ensures var r := Load(dc, Some(file), junk);
            && r.Some?
            && ((r.value.authName, r.value.authPwd) == (stored.authName, stored.authPwd) <==>
                  || (Clean(stored.authName) && Clean(stored.authPwd))
                  || (ReadPassword(stored.authName, stored.authPwd, Tail(file, stored, junk)) == None
                      && (dc.authName, dc.authPwd) == (stored.authName, stored.authPwd)))
  {
    var tail := Tail(file, stored, junk);
    LoadExactly(dc, stored, file, junk);
    WordsAreClean(stored.authName, stored.authPwd, tail);
    if Clean(stored.authName) && Clean(stored.authPwd) {
      LeftByCases((dc.authName, dc.authPwd), stored, tail);
    }
  }

  // ----- Definitions that cannot be read back

  const PDP_TYPE := "pdptype="
  const AUTH := "auth="

  /** "%s" reads one word of the name and finds the next field after it. */
  predicate Readable(apn: string) {
    !Blank(apn) && Blank(AfterWord(apn))
  }

  lemma {:induction false} WordParts(s: string)
    ensures |SkipWhite(s)| <= |s| && forall c <- SkipWhite(s) :: c in s
  {
    if |s| > 0 && IsSpace(s[0]) {
      WordParts(s[1..]);
    }
  }

  lemma FirstWordIsPart(s: string)
    ensures |FirstWord(s)| <= |s| && forall c <- FirstWord(s) :: c in s
    ensures forall c <- AfterWord(s) :: c in s
  {
    WordParts(s);
  }

  /** A field name with an "=" is not found in text without one, not even across its end. */
  lemma NoFieldName(field: string, a: string, b: string)
    requires a != "" && '=' !in a && b != "" && b[0] == ' '
    requires ' ' !in field && '=' in field
    ensures !(field <= a + b)
  {
    var i :| 0 <= i < |field| && field[i] == '=';
    assert |a| <= i ==> field[|a|] in field;
    assert i < |a| ==> a[i] in a;
  }

  /** A word read as a field, and the next field name looked for after it. s is what stands after
      that field name, in text where it stands. */
  lemma ScanField(name: string, value: string, more: seq<Directive>, s: string)
    requires Clean(name) && '=' in name && '=' !in value
    requires !(name <= SkipWhite(s[TokenLength(s)..]))
    ensures var items := Scan([Str] + ([White] + (Format(name) + more)), value + ([' '] + (name + s)));
            if Readable(value) then items == [Token(FirstWord(value))] + Scan(more, s) else |items| == 1
  {
    var fmt, text := [White] + (Format(name) + more), value + ([' '] + (name + s));
    var next := Format(name) + more;
    assert ([White] + next)[1..] == next;
    ScanWord(fmt, text);
    if Blank(value) {
      WordAfterBlank(value, [' '] + (name + s));
      FieldWord(name, s);
      ScanOtherText(name, more, SkipWhite(s[TokenLength(s)..]));
    } else {
      WordOfText(value, [' '] + (name + s));
      FirstWordIsPart(value);
      AfterValue(name, AfterWord(value), more, s);
    }
  }

  lemma {:induction false} GluedLength(a: string, b: string)
    requires forall i :: 0 <= i < |a| ==> !IsSpace(a[i])
    ensures TokenLength(a + b) == |a| + TokenLength(b)
  {
    if |a| == 0 {
      assert a + b == b;
    } else {
      assert (a + b)[1..] == a[1..] + b;
      GluedLength(a[1..], b);
    }
  }

  lemma FieldWord(name: string, s: string)
    requires Clean(name)
    ensures FirstWord([' '] + (name + s)) != "" && AfterWord([' '] + (name + s)) == s[TokenLength(s)..]
  {
    var text := name + s;
    WordAfterSpace(text);
    GluedLength(name, s);
    assert SkipWhite(text) == text && |FirstWord(text)| > 0;
    assert text[|name| + TokenLength(s)..] == s[TokenLength(s)..];
  }

  /** The field name after a word: found exactly when nothing else stands before it. */
  lemma AfterValue(name: string, rest: string, more: seq<Directive>, s: string)
    requires Clean(name) && '=' in name && '=' !in rest
    ensures Scan([White] + (Format(name) + more), rest + ([' '] + (name + s))) ==
            if Blank(rest) then Scan(more, s) else []
  {
    var next := Format(name) + more;
    var text := [' '] + (name + s);
    assert ([White] + next)[1..] == next;
    if Blank(rest) {
      SkipBlankText(rest, text);
      assert text[1..] == name + s && SkipWhite(text) == name + s;
      ScanLiteral(name, more, s);
    } else {
      SkipBeforeText(rest, text);
      WordParts(rest);
      NoFieldName(name, SkipWhite(rest), text);
      ScanOtherText(name, more, SkipWhite(rest) + text);
    }
  }

  /** Type and mode, when the type may be empty. */
  lemma ScanTypeAndModeAny(dc: Dc, more: seq<Directive>, tail: string)
    requires dc.pdpType == "" || (Clean(dc.pdpType) && '=' !in dc.pdpType)
    ensures var rest := Credentials(dc, tail);
            var items := Scan(TypeAndModeFormat(more), TypeAndMode(dc, rest));
            if dc.pdpType != "" then items == [Token(dc.pdpType)] + ([Number(dc.authMode)] + Scan(more, rest))
            else |items| == 1
  {
    var rest := Credentials(dc, tail);
    if dc.pdpType != "" {
      ScanTypeAndMode(dc, more, rest);
    } else {
      var mode := Dec(dc.authMode);
      var s := mode + rest;
      assert forall i :: 0 <= i < |mode| ==> mode[i] in mode;
      ScanLiteral(PDP_TYPE, [Str] + ([White] + (Format(AUTH) + ([Int] + more))), dc.pdpType + ([' '] + (AUTH + s)));
      TokenEnds(mode, rest);
      assert s[|mode|..] == rest;
      assert SkipWhite(rest) == rest[1..] && rest[1] == 'n';
      ScanField(AUTH, dc.pdpType, [Int] + more, s);
    }
  }

  /** What follows "pdptype=" in a record. */
  function AfterType(dc: Dc, rest: string): string {
    dc.pdpType + ([' '] + (AUTH + (Dec(dc.authMode) + rest)))
  }

  function AfterTypeFormat(more: seq<Directive>): seq<Directive> {
    [Str] + ([White] + (Format(AUTH) + ([Int] + more)))
  }

  lemma ScanAfterType(dc: Dc, more: seq<Directive>, rest: string)
    ensures Scan(AfterTypeFormat(more), AfterType(dc, rest)) == Scan(TypeAndModeFormat(more), TypeAndMode(dc, rest))
  {
    ScanLiteral(PDP_TYPE, AfterTypeFormat(more), AfterType(dc, rest));
  }

  lemma ScanNameAny(dc: Dc, more: seq<Directive>, rest: string)
    requires '=' !in dc.apn && (dc.pdpType == "" || Clean(dc.pdpType))
    ensures var items := Scan([Str] + ([White] + TypeAndModeFormat(more)), dc.apn + ([' '] + TypeAndMode(dc, rest)));
            if Readable(dc.apn) then
              items == [Token(FirstWord(dc.apn))] + Scan(TypeAndModeFormat(more), TypeAndMode(dc, rest))
            else |items| == 1
  {
    TypeEnds(dc.pdpType, AUTH + (Dec(dc.authMode) + rest));
    ScanField(PDP_TYPE, dc.apn, AfterTypeFormat(more), AfterType(dc, rest));
    ScanAfterType(dc, more, rest);
  }

  lemma ScanDefinitionAny(dc: Dc, more: seq<Directive>, tail: string)
    requires '=' !in dc.apn && (dc.pdpType == "" || (Clean(dc.pdpType) && '=' !in dc.pdpType))
    ensures var rest := Credentials(dc, tail);
            var items := Scan(DefinitionFormat(more), Definition(dc, rest));
            if Readable(dc.apn) && dc.pdpType != "" then
              items == [Number(dc.cid)] + ([Token(FirstWord(dc.apn))] + ([Token(dc.pdpType)]
                       + ([Number(dc.authMode)] + Scan(more, rest))))
            else |items| <= 3
  {
    var f3 := [Str] + ([White] + TypeAndModeFormat(more));
    var t3 := dc.apn + ([' '] + TypeAndMode(dc, Credentials(dc, tail)));
    ScanTypeAndModeAny(dc, more, tail);
    ScanNameAny(dc, more, Credentials(dc, tail));
    ScanLiteral("apn=", f3, t3);
    ScanCid(dc.cid, Format("apn=") + f3, "apn=" + t3);
  }

  lemma TypeEnds(pdpType: string, s: string)
    requires (pdpType == "" || Clean(pdpType)) && s != "" && s[0] == 'a'
    ensures var text := pdpType + ([' '] + s);
            !(PDP_TYPE <= SkipWhite(text[TokenLength(text)..]))
  {
    var text := pdpType + ([' '] + s);
    assert forall i :: 0 <= i < |pdpType| ==> !IsSpace(pdpType[i]);
    TokenEnds(pdpType, [' '] + s);
    assert text[|pdpType|..] == [' '] + s;
    assert ([' '] + s)[1..] == s;
  }

  /** What a load makes of any record whose name has no "=": it fails exactly when the name does not
      have one word alone or the type is empty; else that word is the name. */
  lemma LoadAnyExactly(dc: Dc, stored: Dc, file: string, junk: string)
    requires Storable(stored) && Record(stored) <= file
    requires '=' !in stored.apn && (stored.pdpType == "" || (Clean(stored.pdpType) && '=' !in stored.pdpType))
    ensures Load(dc, Some(file), junk) ==
            if Readable(stored.apn) && stored.pdpType != "" then
              Some(Loaded(dc, stored.(apn := FirstWord(stored.apn)), Tail(file, stored, junk)))
            else None
  {
    var tail := Tail(file, stored, junk);
    BufferIs(stored, file, junk);
    assert |Record(stored)| > 0;
    ScanDefinitionAny(stored, [], tail);
    ScanDefinitionAny(stored, CredentialsFormat(), tail);
    ScanCredentialsExactly(stored, tail);
  }

  /** A load gives back the stored definition if and only if its name is non-empty and free of
      white space, which AT+CGDCONT does not check. */
  lemma DefinitionRecoveredExactly(dc: Dc, stored: Dc, file: string, junk: string)
    requires Storable(stored) && Record(stored) <= file && Clean(stored.pdpType)
    ensures var r := Load(dc, Some(file), junk);
            && (Clean(stored.apn) ==>
                  r.Some? && (r.value.cid, r.value.apn, r.value.pdpType, r.value.authMode)
                          == (stored.cid, stored.apn, stored.pdpType, stored.authMode))
            && (r.Some? && r.value.apn == stored.apn ==> Clean(stored.apn))
  {
    if Clean(stored.apn) {
      LoadRecord(dc, stored, file, junk);
    } else if |file| > 0 {
      ScanFields(Buffer(file, junk));
    }
  }
}
