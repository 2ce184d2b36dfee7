/** The modem response tokeniser (core/src/AtResponseParser.cpp). The text is a list of
    tokens; name, kind and arguments are read off that list, and the in-place loop
    computes them. */
module AtResponseParser {
  import opened Text
  import opened Limits
  import opened TokenBuffers

  /** Size of `tmp` and of `argv`. */
  const BUF_SIZE := 1024

  datatype Keyword = OkWord | ErrorWord | CmeErrorWord

  datatype Token = Key(word: Keyword) | Colon | Comma | Skip | Char(c: char)

  datatype Kind = Urc | OkKind | ErrorKind | CmeErrorKind

  /** argv[0] (null when nothing named the response), argv[1] and argv[2..argc]. */
  datatype Response = Response(name: Option<string>, kind: Kind, args: seq<string>)

  // ----- Lexing

  function Word(k: Keyword): string {
    match k
    case OkWord => "OK"
    case ErrorWord => "ERROR"
    case CmeErrorWord => "+CME ERROR"
  }

  function KeywordAt(s: string): (r: Option<Keyword>)
    ensures r.Some? ==> Word(r.value) <= s
  {
    if Word(OkWord) <= s then Some(OkWord)
    else if Word(ErrorWord) <= s then Some(ErrorWord)
    else if Word(CmeErrorWord) <= s then Some(CmeErrorWord)
    else None
  }

  function SkipSpaces(s: string): (r: string)
    ensures |r| <= |s|
  {
    if |s| > 0 && s[0] == ' ' then SkipSpaces(s[1..]) else s
  }

  function ScanChar(c: char): Token {
    if c == ',' then Comma else if Deleted(c) then Skip else Char(c)
  }

  /** The tokens of a response. A keyword wins over its letters, and a colon takes the
      spaces after it. */
  function Lex(s: string): seq<Token>
    decreases |s|
  {
    if |s| == 0 then []
    else if KeywordAt(s).Some? then [Key(KeywordAt(s).value)] + Lex(s[|Word(KeywordAt(s).value)|..])
    else if s[0] == ':' then [Colon] + Lex(SkipSpaces(s[1..]))
    else [ScanChar(s[0])] + Lex(s[1..])
  }

  // ----- Meaning of a token list

  /** The visible text of a stretch: its characters up to the first keyword. */
  function Visible(ts: seq<Token>): string {
    if |ts| == 0 || ts[0].Key? then []
    else if ts[0].Char? then [ts[0].c] + Visible(ts[1..])
    else Visible(ts[1..])
  }

  /** A comma field counts from its last colon on. */
  function FieldTail(field: seq<Token>): seq<Token> {
    Last(Split(field, {Colon}))
  }

  function Value(field: seq<Token>): string {
    Visible(FieldTail(field))
  }

  function ArgsOf(fields: seq<seq<Token>>): seq<string> {
    seq(|fields|, i requires 0 <= i < |fields| => Value(fields[i]))
  }

  function KindOfWord(k: Keyword): Kind {
    match k
    case OkWord => OkKind
    case ErrorWord => ErrorKind
    case CmeErrorWord => CmeErrorKind
  }

  /** The last keyword gives the kind. */
  function KindOf(ts: seq<Token>): Kind {
    if |ts| == 0 then Urc
    else if Last(ts).Key? then KindOfWord(Last(ts).word)
    else KindOf(DropLast(ts))
  }

  /** The last error keyword, if any. */
  function ErrorName(ts: seq<Token>): Option<string> {
    if |ts| == 0 then None
    else if Last(ts).Key? && Last(ts).word != OkWord then Some(Word(Last(ts).word))
    else ErrorName(DropLast(ts))
  }

  /** What stands between the last comma before the first colon and that colon. */
  function ColonName(ts: seq<Token>): string
  {
    Visible(Last(Split(Split(ts, {Colon})[0], {Comma})))
  }

  predicate HasColon(ts: seq<Token>) {
    |Split(ts, {Colon})| > 1
  }

  /** An error keyword names the response; else the text before the first colon; else OK. */
  function NameOf(ts: seq<Token>): Option<string> {
    if ErrorName(ts).Some? then ErrorName(ts)
    else if HasColon(ts) then Some(ColonName(ts))
    else if Key(OkWord) in ts then Some(Word(OkWord))
    else None
  }

  function Interpret(ts: seq<Token>): Response {
    Response(NameOf(ts), KindOf(ts), ArgsOf(Split(ts, {Comma})))
  }

  function Parse(s: string): Response {
    Interpret(Lex(s))
  }

  // ----- No line end and no quote reaches an argument

  lemma {:induction false} LexKeepsNone(s: string)
    ensures forall t <- Lex(s) :: t.Char? ==> !Deleted(t.c)
    decreases |s|
  {
    if |s| > 0 {
      if KeywordAt(s).Some? {
        LexKeepsNone(s[|Word(KeywordAt(s).value)|..]);
      } else if s[0] == ':' {
        LexKeepsNone(SkipSpaces(s[1..]));
      } else {
        LexKeepsNone(s[1..]);
      }
    }
  }

  lemma {:induction false} VisibleMembers(ts: seq<Token>)
    ensures forall c <- Visible(ts) :: Char(c) in ts
  {
    if |ts| > 0 {
      VisibleMembers(ts[1..]);
    }
  }

  lemma ArgsUndeleted(s: string)
    ensures forall arg <- Parse(s).args :: Undeleted(arg)
  {
    var ts := Lex(s);
    var fields := Split(ts, {Comma});
    LexKeepsNone(s);
    forall i | 0 <= i < |fields| ensures Undeleted(Value(fields[i])) {
      var tail := FieldTail(fields[i]);
      VisibleMembers(tail);
      forall t | t in tail ensures t in ts {
        SplitMembers(fields[i], {Colon}, tail, t);
        SplitMembers(ts, {Comma}, fields[i], t);
      }
    }
  }

  // ----- One token at a time

  /** The bytes the loop leaves in `tmp` for a stretch: a keyword leaves a zero. */
  function Layout(ts: seq<Token>): string {
    if |ts| == 0 then []
    else if Last(ts).Key? then Layout(DropLast(ts)) + ['\0']
    else if Last(ts).Char? then Layout(DropLast(ts)) + [Last(ts).c]
    else Layout(DropLast(ts))
  }

  /** Seen as a C string, those bytes are the visible text. */
  lemma {:induction false} LayoutShowsVisible(ts: seq<Token>)
    requires Char('\0') !in ts
    ensures CStr(Layout(ts)) == Visible(ts)
  {
    if |ts| != 0 {
      LayoutCons(ts);
      assert ts[0] in ts && forall t <- ts[1..] :: t in ts;
      LayoutShowsVisible(ts[1..]);
      if ts[0].Key? {
        CStrCons('\0', Layout(ts[1..]));
      } else if ts[0].Char? {
        CStrCons(ts[0].c, Layout(ts[1..]));
      }
    }
  }

  lemma {:induction false} LayoutCons(ts: seq<Token>)
    requires |ts| != 0
    ensures Layout(ts) ==
            if ts[0].Key? then ['\0'] + Layout(ts[1..])
            else if ts[0].Char? then [ts[0].c] + Layout(ts[1..])
            else Layout(ts[1..])
  {
    if |ts| > 1 {
      LayoutCons(DropLast(ts));
      assert DropLast(ts)[1..] == DropLast(ts[1..]);
      assert Last(ts[1..]) == Last(ts);
    } else {
      assert |DropLast(ts)| == 0 && |ts[1..]| == 0;
    }
  }

  /** The local variables of the loop; named tells whether `response` is set. */
  datatype Reading = Reading(kind: Kind, named: bool, name: Option<string>, args: seq<string>, written: string)

  function ReadToken(r: Reading, t: Token): Reading {
    match t
    case Key(OkWord) =>
      r.(kind := OkKind, name := if r.named then r.name else Some(Word(OkWord)), written := r.written + ['\0'])
    case Key(k) =>
      Reading(KindOfWord(k), true, Some(Word(k)), r.args, r.written + ['\0'])
    case Colon =>
      r.(named := true, name := if r.named then r.name else Some(CStr(r.written)), written := "")
    case Comma => r.(args := r.args + [CStr(r.written)], written := "")
    case Skip => r
    case Char(c) => r.(written := r.written + [c])
  }

  const START := Reading(Urc, false, None, [], "")

  function ReadAll(ts: seq<Token>): Reading {
    if |ts| == 0 then START else ReadToken(ReadAll(DropLast(ts)), Last(ts))
  }

  /** What the loop holds when it has read ts. */
  function ReadingOf(ts: seq<Token>): Reading {
    var fields := Split(ts, {Comma});
    Reading(KindOf(ts), ErrorName(ts).Some? || HasColon(ts), NameOf(ts),
            ArgsOf(DropLast(fields)), Layout(FieldTail(Last(fields))))
  }

  lemma FieldTailSnoc(field: seq<Token>, t: Token)
    ensures FieldTail(field + [t]) == if t == Colon then [] else FieldTail(field) + [t]
  {
    SplitSnoc(field, t, {Colon});
  }

  lemma LayoutSnoc(ts: seq<Token>, t: Token)
    ensures Layout(ts + [t]) ==
            if t.Key? then Layout(ts) + ['\0'] else if t.Char? then Layout(ts) + [t.c] else Layout(ts)
  {
    Unsnoc(ts, t);
  }

  lemma EmptyField(field: seq<Token>)
    requires |field| == 0
    ensures |Layout(FieldTail(field))| == 0
  {
    assert |FieldTail(field)| == 0;
  }

  /** A comma closes the open field. */
  lemma CloseField(fields: seq<seq<Token>>, empty: seq<Token>, r: Reading)
    requires |fields| != 0 && |empty| == 0 && Char('\0') !in FieldTail(Last(fields))
    requires r.args == ArgsOf(DropLast(fields)) && r.written == Layout(FieldTail(Last(fields)))
    ensures ArgsOf(DropLast(fields + [empty])) == ReadToken(r, Comma).args
    ensures Layout(FieldTail(Last(fields + [empty]))) == ReadToken(r, Comma).written
  {
    Unsnoc(fields, empty);
    LayoutShowsVisible(FieldTail(Last(fields)));
    EmptyField(empty);
  }

  /** Any other token lengthens it. */
  lemma LengthenField(fields: seq<seq<Token>>, t: Token, r: Reading)
    requires |fields| != 0 && t != Comma
    requires r.args == ArgsOf(DropLast(fields)) && r.written == Layout(FieldTail(Last(fields)))
    ensures ArgsOf(DropLast(DropLast(fields) + [Last(fields) + [t]])) == ReadToken(r, t).args
    ensures Layout(FieldTail(Last(DropLast(fields) + [Last(fields) + [t]]))) == ReadToken(r, t).written
  {
    Unsnoc(DropLast(fields), Last(fields) + [t]);
    FieldTailSnoc(Last(fields), t);
    LayoutSnoc(FieldTail(Last(fields)), t);
  }

  lemma OpenFieldNulFree(ts: seq<Token>)
    requires Char('\0') !in ts
    ensures Char('\0') !in FieldTail(Last(Split(ts, {Comma})))
  {
    var field := Last(Split(ts, {Comma}));
    if Char('\0') in FieldTail(field) {
      assert FieldTail(field) in Split(field, {Colon}) && field in Split(ts, {Comma});
      SplitMembers(field, {Colon}, FieldTail(field), Char('\0'));
      SplitMembers(ts, {Comma}, field, Char('\0'));
    }
  }

  /** Without a colon, the open field is what stands after the last comma. */
  lemma OpenFieldWithoutColon(ts: seq<Token>)
    requires !HasColon(ts)
    ensures FieldTail(Last(Split(ts, {Comma}))) == Last(Split(ts, {Comma}))
  {
    SplitOne(ts, {Colon});
    var field := Last(Split(ts, {Comma}));
    assert field in Split(ts, {Comma});
    forall t <- field ensures t != Colon {
      SplitMembers(ts, {Comma}, field, t);
    }
    SplitFree(field, {Colon});
  }

  lemma ReadFields(ts: seq<Token>, t: Token)
    requires Char('\0') !in ts
    ensures var before, after := ReadingOf(ts), ReadingOf(ts + [t]);
            && after.written == ReadToken(before, t).written
            && after.args == ReadToken(before, t).args
  {
    var fields := Split(ts, {Comma});
    SplitSnoc(ts, t, {Comma});
    if t == Comma {
      OpenFieldNulFree(ts);
      CloseField(fields, [t][..0], ReadingOf(ts));
    } else {
      LengthenField(fields, t, ReadingOf(ts));
    }
  }

  lemma ReadColons(ts: seq<Token>, t: Token)
    ensures HasColon(ts + [t]) <==> HasColon(ts) || t == Colon
    ensures HasColon(ts) ==> ColonName(ts + [t]) == ColonName(ts)
    ensures !HasColon(ts) && t == Colon ==> ColonName(ts + [t]) == Visible(Last(Split(ts, {Comma})))
  {
    SplitSnoc(ts, t, {Colon});
    if !HasColon(ts) {
      SplitOne(ts, {Colon});
    }
  }

  lemma ReadKeys(ts: seq<Token>, t: Token)
    ensures KindOf(ts + [t]) == if t.Key? then KindOfWord(t.word) else KindOf(ts)
    ensures ErrorName(ts + [t]) == if t.Key? && t.word != OkWord then Some(Word(t.word)) else ErrorName(ts)
    ensures Key(OkWord) in ts + [t] <==> Key(OkWord) in ts || t == Key(OkWord)
  {
    Unsnoc(ts, t);
  }

  /** The name after one more token. */
  lemma NameSnoc(ts: seq<Token>, t: Token)
    ensures NameOf(ts + [t]) ==
            if t.Key? && t.word != OkWord then Some(Word(t.word))
            else if ErrorName(ts).Some? || HasColon(ts) then NameOf(ts)
            else if t == Colon then Some(Visible(Last(Split(ts, {Comma}))))
            else if t == Key(OkWord) then Some(Word(OkWord))
            else NameOf(ts)
  {
    ReadKeys(ts, t);
    ReadColons(ts, t);
  }

  /** Without a colon, what is written shows the text after the last comma. */
  lemma OpenFieldShows(ts: seq<Token>)
    requires Char('\0') !in ts && !HasColon(ts)
    ensures Visible(Last(Split(ts, {Comma}))) == CStr(ReadingOf(ts).written)
  {
    OpenFieldWithoutColon(ts);
    OpenFieldNulFree(ts);
    LayoutShowsVisible(Last(Split(ts, {Comma})));
  }

  lemma ReadName(ts: seq<Token>, t: Token)
    requires Char('\0') !in ts
    ensures var before, after := ReadingOf(ts), ReadingOf(ts + [t]);
            && after.kind == ReadToken(before, t).kind
            && after.named == ReadToken(before, t).named
            && after.name == ReadToken(before, t).name
  {
    ReadKeys(ts, t);
    ReadColons(ts, t);
    NameSnoc(ts, t);
    if !HasColon(ts) {
      OpenFieldShows(ts);
    }
  }

  /** Reading left to right computes the meaning of the whole list. */
  lemma {:induction false} ReadAllMeans(ts: seq<Token>)
    requires Char('\0') !in ts
    ensures ReadAll(ts) == ReadingOf(ts)
  {
    if |ts| == 0 {
      assert ts == [];
      ReadNothing(ts);
    } else {
      var ts0, t := DropLast(ts), Last(ts);
      assert forall x <- ts0 :: x in ts;
      ReadAllMeans(ts0);
      ReadFields(ts0, t);
      ReadName(ts0, t);
      Whole(ts);
    }
  }

  lemma ReadNothing(ts: seq<Token>)
    requires |ts| == 0
    ensures ReadingOf(ts) == START
  {
  }

  // ----- The loop

  function SpaceEnd(s: string, p: nat): (r: nat)
    requires p <= |s|
    ensures p <= r <= |s|
    decreases |s| - p
  {
    if p < |s| && s[p] == ' ' then SpaceEnd(s, p + 1) else p
  }

  lemma {:induction false} SkipSpacesFrom(s: string, p: nat)
    requires p <= |s|
    ensures SkipSpaces(s[p..]) == s[SpaceEnd(s, p)..]
    decreases |s| - p
  {
    if p < |s| && s[p] == ' ' {
      assert s[p..][1..] == s[p + 1..];
      SkipSpacesFrom(s, p + 1);
    }
  }

  /** The token at p and where the next one starts. */
  function Next(s: string, p: nat): (r: (Token, nat))
    requires p < |s|
    ensures p < r.1 <= |s|
  {
    var k := KeywordAt(s[p..]);
    if k.Some? then (Key(k.value), p + |Word(k.value)|)
    else if s[p] == ':' then (Colon, SpaceEnd(s, p + 1))
    else (ScanChar(s[p]), p + 1)
  }

  lemma LexStep(r: string, t: Token, n: nat)
    requires 0 < |r| && n <= |r|
    requires if KeywordAt(r).Some? then t == Key(KeywordAt(r).value) && n == |Word(KeywordAt(r).value)|
             else if r[0] == ':' then t == Colon && r[n..] == SkipSpaces(r[1..])
             else t == ScanChar(r[0]) && n == 1
    ensures Lex(r) == [t] + Lex(r[n..])
  {
  }

  lemma LexNext(s: string, p: nat)
    requires p < |s|
    ensures Lex(s[p..]) == [Next(s, p).0] + Lex(s[Next(s, p).1..])
  {
    var r, next := s[p..], Next(s, p);
    if KeywordAt(r) == None && s[p] == ':' {
      assert r[1..] == s[p + 1..];
      SkipSpacesFrom(s, p + 1);
    }
    assert r[next.1 - p..] == s[next.1..];
    LexStep(r, next.0, next.1 - p);
  }

  /** No more tokens than characters, and none of them is a NUL. */
  lemma {:induction false} LexBounds(s: string)
    requires '\0' !in s
    ensures |Lex(s)| <= |s| && Char('\0') !in Lex(s)
    decreases |s|
  {
    if |s| != 0 {
      assert s[0..] == s;
      LexNext(s, 0);
      var n := Next(s, 0).1;
      assert forall c <- s[n..] :: c in s;
      LexBounds(s[n..]);
      assert s[0] in s;
    }
  }

  /** strncmp on the raw data sees the same keywords as on the C string. */
  lemma RawPrefix(data: seq<char>, len: nat, p: nat, w: string)
    requires len < |data| && p <= |CStr(data[..len])| && '\0' !in w
    ensures w <= data[p..len] <==> w <= CStr(data[..len])[p..]
  {
    var s := CStr(data[..len]);
    var raw := data[p..len];
    assert s[p..] <= raw;
    assert |s| < len ==> raw[|s| - p] == data[..len][|s|] == '\0';
    assert forall i :: 0 <= i < |w| ==> w[i] in w;
  }

  lemma {:induction false} WrittenBound(ts: seq<Token>)
    ensures |ReadAll(ts).written| <= |ts|
  {
    if |ts| != 0 {
      WrittenBound(DropLast(ts));
    }
  }

  /** Where each token of a suffix starts, and where the last one ends. */
  lemma {:induction false} Starts(s: string, p: nat) returns (pos: seq<nat>)
    requires p <= |s|
    ensures |pos| == |Lex(s[p..])| + 1 && pos[0] == p && pos[|pos| - 1] == |s|
    ensures forall n :: 0 <= n < |pos| - 1 ==> pos[n] < |s| && (Lex(s[p..])[n], pos[n + 1]) == Next(s, pos[n])
    decreases |s| - p
  {
    if p == |s| {
      assert |s[p..]| == 0;
      pos := [p];
    } else {
      LexNext(s, p);
      var rest := Starts(s, Next(s, p).1);
      pos := [p] + rest;
      forall n | 0 <= n < |pos| - 1
        ensures pos[n] < |s| && (Lex(s[p..])[n], pos[n + 1]) == Next(s, pos[n])
      {
        if n > 0 {
          assert pos[n] == rest[n - 1] && Lex(s[p..])[n] == Lex(s[Next(s, p).1..])[n - 1];
        }
      }
    }
  }

  /** The states a token list goes through. */
  lemma States(ts: seq<Token>) returns (trail: seq<Reading>)
    ensures |trail| == |ts| + 1 && trail[0] == START && trail[|ts|] == ReadAll(ts)
    ensures forall n :: 0 <= n < |ts| ==> trail[n + 1] == ReadToken(trail[n], ts[n])
    ensures forall n :: 0 <= n <= |ts| ==> |trail[n].written| <= |ts|
  {
    trail := seq(|ts| + 1, n requires 0 <= n <= |ts| => ReadAll(ts[..n]));
    forall n | 0 <= n <= |ts| ensures |trail[n].written| <= |ts| {
      WrittenBound(ts[..n]);
    }
    forall n | 0 <= n < |ts| ensures trail[n + 1] == ReadToken(trail[n], ts[n]) {
      assert DropLast(ts[..n + 1]) == ts[..n];
    }
    assert ts[..|ts|] == ts;
  }

  /** The positions and states the loop goes through, one token a turn. */
  lemma Trail(s: string) returns (pos: seq<nat>, trail: seq<Reading>)
    requires '\0' !in s
    ensures |pos| == |trail| >= 1 && pos[0] == 0 && trail[0] == START
    ensures forall n :: 0 <= n < |pos| ==> pos[n] <= |s| && |trail[n].written| <= |s|
    ensures forall n :: 0 <= n < |pos| - 1 ==> pos[n] < |s| && pos[n + 1] == Next(s, pos[n]).1
    ensures forall n :: 0 <= n < |pos| - 1 ==> trail[n + 1] == ReadToken(trail[n], Next(s, pos[n]).0)
    ensures pos[|pos| - 1] == |s|
    ensures Parse(s) == Finish(trail[|trail| - 1])
  {
    assert s[0..] == s;
    pos := Starts(s, 0);
    LexBounds(s);
    trail := States(Lex(s));
    FinishParses(Lex(s));
  }

  /** What follows the loop: the open token is always one more argument. */
  function Finish(r: Reading): Response {
    Response(r.name, r.kind, r.args + [CStr(r.written)])
  }

  lemma FinishParses(ts: seq<Token>)
    requires Char('\0') !in ts
    ensures Interpret(ts) == Finish(ReadAll(ts))
  {
    ReadAllMeans(ts);
    OpenFieldNulFree(ts);
    LayoutShowsVisible(FieldTail(Last(Split(ts, {Comma}))));
  }

  /** At a position of the loop, the raw data shows what the C string shows. */
  lemma RawAt(data: seq<char>, len: nat, p: nat)
    requires len < |data| && data[len] == '\0' && p <= |CStr(data[..len])|
    ensures var s := CStr(data[..len]);
            && (p < |s| <==> p < len && data[p] != '\0')
            && (p < |s| ==> s[p] == data[p])
            && (forall k :: Word(k) <= data[p..len] <==> Word(k) <= s[p..])
  {
    CStrIndex(data, len, p);
    RawPrefix(data, len, p, Word(OkWord));
    RawPrefix(data, len, p, Word(ErrorWord));
    RawPrefix(data, len, p, Word(CmeErrorWord));
  }

  /** The do-while over spaces after a colon. */
  method SkipSpacesAfter(data: seq<char>, len: nat, start: nat) returns (p: nat)
    requires start < len < |data| && data[len] == '\0'
    ensures start < p <= len && data[p] != ' '
    ensures forall i :: start < i < p ==> data[i] == ' '
  {
    p := start + 1;
    while data[p] == ' '
      invariant start < p <= len
      invariant forall i :: start < i < p ==> data[i] == ' '
      decreases len - p
    {
      p := p + 1;
    }
  }

  lemma {:induction false} SpacesEndAt(s: string, start: nat, p: nat)
    requires start <= p <= |s|
    requires forall i :: start <= i < p ==> s[i] == ' '
    requires p < |s| ==> s[p] != ' '
    ensures SpaceEnd(s, start) == p
    decreases p - start
  {
    if start < p {
      SpacesEndAt(s, start + 1, p);
    }
  }

  /** The spaces skipped on the raw data are those of the C string. */
  lemma SpacesSkipped(data: seq<char>, len: nat, start: nat, p: nat)
    requires start < p <= len < |data| && data[len] == '\0' && start < |CStr(data[..len])|
    requires data[p] != ' ' && forall i :: start < i < p ==> data[i] == ' '
    ensures SpaceEnd(CStr(data[..len]), start + 1) == p
  {
    var s := CStr(data[..len]);
    assert forall i :: 0 <= i < |s| ==> s[i] == data[..len][i] == data[i];
    if |s| < len {
      assert data[..len][|s|] == data[|s|] == '\0';
    }
    SpacesEndAt(s, start + 1, p);
  }

  /** The three strncmp tests. */
  method FindKeyword(data: seq<char>, len: nat, p: nat) returns (k: Option<Keyword>)
    requires len < |data| && data[len] == '\0' && p < |CStr(data[..len])|
    ensures k == KeywordAt(CStr(data[..len])[p..])
    ensures p < len && data[p] == CStr(data[..len])[p]
  {
    RawAt(data, len, p);
    if Word(OkWord) <= data[p..len] {
      k := Some(OkWord);
    } else if Word(ErrorWord) <= data[p..len] {
      k := Some(ErrorWord);
    } else if Word(CmeErrorWord) <= data[p..len] {
      k := Some(CmeErrorWord);
    } else {
      k := None;
    }
  }

  /** The tests of the loop body: which token stands at p, and where the next one starts. */
  method ScanToken(data: seq<char>, len: nat, p: nat) returns (t: Token, next: nat)
    requires len < |data| && data[len] == '\0' && p < |CStr(data[..len])|
    ensures (t, next) == Next(CStr(data[..len]), p)
  {
    var keyword := FindKeyword(data, len, p);
    if keyword.Some? {
      t, next := Key(keyword.value), p + |Word(keyword.value)|;
    } else if data[p] == ':' {
      next := SkipSpacesAfter(data, len, p);
      SpacesSkipped(data, len, p, next);
      t := Colon;
    } else {
      t, next := ScanChar(data[p]), p + 1;
    }
  }

  /** The assignments of the loop body, for each token. */
  method TakeToken(tmp: TokenBuffer, t: Token, kind0: Kind, named0: bool, name0: Option<string>, argv0: seq<string>)
    returns (kind: Kind, named: bool, name: Option<string>, argv: seq<string>)
    requires tmp.Valid() && |tmp.Written()| + 1 < tmp.tmp.Length
    modifies tmp, tmp.tmp
    ensures tmp.Valid()
    ensures Reading(kind, named, name, argv, tmp.Written())
         == ReadToken(Reading(kind0, named0, name0, argv0, old(tmp.Written())), t)
  {
    kind, named, name, argv := kind0, named0, name0, argv0;
    match t {
      case Key(OkWord) =>
        kind := OkKind;
        if !named {
          name := Some("OK");
        }
        tmp.Leave();
      case Key(ErrorWord) =>
        kind, named, name := ErrorKind, true, Some("ERROR");
        tmp.Leave();
      case Key(CmeErrorWord) =>
        kind, named, name := CmeErrorKind, true, Some("+CME ERROR");
        tmp.Leave();
      case Colon =>
        if !named {
          var text := tmp.Dup();
          named, name := true, Some(text);
        }
        tmp.Reset();
      case Comma =>
        var text := tmp.Dup();
        argv := argv + [text];
        tmp.Reset();
      case Skip =>
        tmp.Drop();
      case Char(c) =>
        tmp.Put(c);
    }
  }

  /** The tokeniser of onDataAvailable. */
  method Tokenise(data: seq<char>, len: nat) returns (r: Response)
    requires len < |data| && data[len] == '\0' && len <= MAX_SMM_MESSAGE_SIZE
    ensures r == Parse(CStr(data[..len]))
  {
    ghost var s := CStr(data[..len]);
    ghost var pos, trail := Trail(s);
    ghost var n := 0;
    var kind, named, name: Option<string>, argv := Urc, false, None, [];
    var tmp := new TokenBuffer(BUF_SIZE);
    var p := 0;
    RawAt(data, len, p);
    while p < len && data[p] != '\0'
      invariant n < |pos| && p == pos[n]
      invariant p < |s| <==> p < len && data[p] != '\0'
      invariant fresh(tmp) && fresh(tmp.tmp) && tmp.Valid() && tmp.tmp.Length == BUF_SIZE
      invariant Reading(kind, named, name, argv, tmp.Written()) == trail[n]
      decreases |s| - p
    {
      var t, next := ScanToken(data, len, p);
      assert trail[n + 1] == ReadToken(trail[n], t) && pos[n + 1] == next;
      kind, named, name, argv := TakeToken(tmp, t, kind, named, name, argv);
      p, n := next, n + 1;
      RawAt(data, len, p);
    }
    var text := tmp.Dup();
    r := Response(name, kind, argv + [text]);
  }

  // ----- The printer

  predicate Delimiter(c: char) {
    c == ':' || c == ',' || Deleted(c)
  }

  /** Text that the lexer takes letter by letter. */
  ghost predicate Plain(a: string) {
    forall i :: 0 <= i < |a| ==> !Delimiter(a[i]) && KeywordAt(a[i..]) == None
  }

  ghost predicate PlainArgs(args: seq<string>) {
    args != [] && (forall i :: 0 <= i < |args| ==> Plain(args[i])) && !([' '] <= args[0])
  }

  predicate LineEnd(t: string) {
    forall i :: 0 <= i < |t| ==> Deleted(t[i])
  }

  /** A reply with its final result, as a modem sends it in one chunk. */
  function Print(before: string, name: string, args: seq<string>, after: string): string
    requires args != []
  {
    before + (name + ([':'] + ([' '] + (Join(args, ',') + (['\r', '\n'] + ("OK" + after))))))
  }

  function Chars(a: string): seq<Token> {
    seq(|a|, i requires 0 <= i < |a| => Char(a[i]))
  }

  function Skips(t: string): seq<Token> {
    seq(|t|, i requires 0 <= i < |t| => Skip)
  }

  function AllChars(args: seq<string>): seq<seq<Token>> {
    seq(|args|, i requires 0 <= i < |args| => Chars(args[i]))
  }

  /** No keyword contains a delimiter, so none straddles the end of a plain text. */
  lemma NoStraddle(a: string, rest: string)
    requires a != "" && KeywordAt(a) == None && (rest == [] || Delimiter(rest[0]))
    ensures KeywordAt(a + rest) == None
  {
    forall k: Keyword ensures !(Word(k) <= a + rest) {
      if |Word(k)| <= |a| {
        assert (a + rest)[..|Word(k)|] == a[..|Word(k)|];
        KeywordAtIsFirst(a, k);
      } else if rest != [] {
        NoDelimiterInWord(k, |a|);
        assert (a + rest)[|a|] == rest[0];
      }
    }
  }

  lemma KeywordAtIsFirst(s: string, k: Keyword)
    requires KeywordAt(s) == None
    ensures !(Word(k) <= s)
  {
  }

  lemma NoDelimiterInWord(k: Keyword, i: nat)
    requires i < |Word(k)|
    ensures !Delimiter(Word(k)[i])
  {
  }

  lemma NoKeyword(s: string)
    requires s != [] && Delimiter(s[0])
    ensures KeywordAt(s) == None
  {
  }

  lemma LexChar(c: char, s: string)
    requires c != ':' && KeywordAt([c] + s) == None
    ensures Lex([c] + s) == [ScanChar(c)] + Lex(s)
  {
    assert ([c] + s)[1..] == s;
  }

  lemma LexColon(s: string)
    requires s == [] || s[0] != ' '
    ensures Lex([':'] + ([' '] + s)) == [Colon] + Lex(s)
  {
    NoKeyword([':'] + ([' '] + s));
    assert ([':'] + ([' '] + s))[1..] == [' '] + s;
    assert SkipSpaces([' '] + s) == SkipSpaces(s) == s by {
      assert ([' '] + s)[1..] == s;
    }
  }

  lemma LexOk(s: string)
    ensures Lex(Word(OkWord) + s) == [Key(OkWord)] + Lex(s)
  {
    assert (Word(OkWord) + s)[|Word(OkWord)|..] == s;
  }

  lemma PlainHead(a: string)
    requires Plain(a) && a != ""
    ensures !Delimiter(a[0]) && KeywordAt(a) == None
  {
    assert a[0..] == a;
  }

  lemma {:induction false} LexPlain(a: string, rest: string)
    requires Plain(a) && (rest == [] || Delimiter(rest[0]))
    ensures Lex(a + rest) == Chars(a) + Lex(rest)
  {
    if |a| == 0 {
      assert a + rest == rest;
    } else {
      PlainHead(a);
      NoStraddle(a, rest);
      HeadAndTail(a, rest);
      LexChar(a[0], a[1..] + rest);
      PlainTail(a);
      LexPlain(a[1..], rest);
      CharsCons(a);
      Associates([Char(a[0])], Chars(a[1..]), Lex(rest));
    }
  }

  lemma CharsCons(a: string)
    requires a != ""
    ensures Chars(a) == [Char(a[0])] + Chars(a[1..])
  {
  }

  lemma PlainTail(a: string)
    requires Plain(a) && a != ""
    ensures Plain(a[1..])
  {
    forall i | 0 <= i < |a| - 1
      ensures !Delimiter(a[1..][i]) && KeywordAt(a[1..][i..]) == None
    {
      assert a[1..][i] == a[i + 1] && a[1..][i..] == a[i + 1..];
    }
  }

  lemma {:induction false} LexLineEnd(t: string, rest: string)
    requires LineEnd(t)
    ensures Lex(t + rest) == Skips(t) + Lex(rest)
  {
    if |t| == 0 {
      assert t + rest == rest;
    } else {
      var c, tail := t[0], t[1..];
      assert t + rest == [c] + (tail + rest);
      NoKeyword([c] + (tail + rest));
      LexChar(c, tail + rest);
      LexLineEnd(tail, rest);
      assert Skips(t) == [Skip] + Skips(tail);
      Associates([Skip], Skips(tail), Lex(rest));
    }
  }

  lemma JoinLast(args: seq<string>, rest: string)
    requires |args| > 1
    ensures Join(args, ',') + rest == Join(DropLast(args), ',') + ([','] + (Last(args) + rest))
  {
  }

  lemma {:induction false} LexArgs(args: seq<string>, rest: string)
    requires args != [] && forall i :: 0 <= i < |args| ==> Plain(args[i])
    requires rest != [] && Delimiter(rest[0])
    ensures Lex(Join(args, ',') + rest) == Join(AllChars(args), Comma) + Lex(rest)
  {
    if |args| == 1 {
      LexPlain(args[0], rest);
    } else {
      var args0, a := DropLast(args), Last(args);
      JoinLast(args, rest);
      LexArgs(args0, [','] + (a + rest));
      NoKeyword([','] + (a + rest));
      LexChar(',', a + rest);
      LexPlain(a, rest);
      assert DropLast(AllChars(args)) == AllChars(args0);
      JoinAssociates(Join(AllChars(args0), Comma), Chars(a), Lex(rest));
    }
  }

  lemma JoinAssociates(x: seq<Token>, y: seq<Token>, z: seq<Token>)
    ensures x + ([Comma] + (y + z)) == x + [Comma] + y + z
  {
  }

  lemma LexFinalOk(after: string)
    requires LineEnd(after)
    ensures Lex(['\r', '\n'] + (Word(OkWord) + after)) == [Skip, Skip] + ([Key(OkWord)] + Skips(after))
  {
    var none := after[|after|..];
    LexLineEnd(['\r', '\n'], Word(OkWord) + after);
    LexOk(after);
    LexLineEnd(after, none);
    assert after + none == after && Skips(after) + Lex(none) == Skips(after);
    assert Skips(['\r', '\n']) == [Skip, Skip];
  }

  lemma JoinStart(args: seq<string>, rest: string)
    requires PlainArgs(args) && rest != [] && rest[0] != ' '
    ensures var s := Join(args, ',') + rest; s != [] && s[0] != ' '
  {
    JoinPrepend([], args, ',');
    JoinHead(args);
    if args[0] == [] && |args| == 1 {
      assert Join(args, ',') + rest == rest;
    }
  }

  lemma {:induction false} JoinHead(args: seq<string>)
    requires args != []
    ensures args[0] != [] ==> Join(args, ',') != [] && Join(args, ',')[0] == args[0][0]
    ensures args[0] == [] && |args| > 1 ==> Join(args, ',') != [] && Join(args, ',')[0] == ','
  {
    if |args| > 1 {
      JoinHead(DropLast(args));
      assert DropLast(args)[0] == args[0];
    }
  }

  /** The tokens of a printed reply. */
  lemma LexPrinted(before: string, name: string, args: seq<string>, after: string)
    requires LineEnd(before) && Plain(name) && PlainArgs(args) && LineEnd(after)
    ensures Lex(Print(before, name, args, after)) ==
            Skips(before) + (Chars(name) + ([Colon] + (Join(AllChars(args), Comma)
            + ([Skip, Skip] + ([Key(OkWord)] + Skips(after))))))
  {
    var final := ['\r', '\n'] + (Word(OkWord) + after);
    var body := Join(args, ',') + final;
    assert Word(OkWord) == "OK";
    LexFinalOk(after);
    LexArgs(args, final);
    JoinStart(args, final);
    LexColon(body);
    LexPlain(name, [':'] + ([' '] + body));
    LexLineEnd(before, name + ([':'] + ([' '] + body)));
  }

  // ----- What a printed reply means

  /** Everything up to and including the colon. */
  function Head(before: string, name: string): seq<Token> {
    Skips(before) + Chars(name) + [Colon]
  }

  /** Everything from the line end after the last argument. */
  function Tail(after: string): seq<Token> {
    [Skip, Skip] + ([Key(OkWord)] + Skips(after))
  }

  const BAD: set<Token> := {Comma, Key(ErrorWord), Key(CmeErrorWord)}

  lemma PartsFree(before: string, name: string, a: string, after: string)
    ensures Free(Skips(before), BAD + {Colon}) && Free(Chars(name), BAD + {Colon}) && Free(Chars(a), BAD + {Colon})
    ensures Free(Head(before, name), BAD) && Free(Tail(after), BAD + {Colon})
  {
  }

  lemma {:induction false} VisibleChars(a: string, rest: seq<Token>)
    ensures Visible(Chars(a) + rest) == a + Visible(rest)
  {
    if |a| == 0 {
      assert Chars(a) + rest == rest;
    } else {
      CharsCons(a);
      assert Chars(a) + rest == [Char(a[0])] + (Chars(a[1..]) + rest);
      VisibleChars(a[1..], rest);
      assert (Chars(a) + rest)[1..] == Chars(a[1..]) + rest;
      Associates([a[0]], a[1..], Visible(rest));
      assert [a[0]] + a[1..] == a;
    }
  }

  lemma {:induction false} VisibleSkips(t: string, rest: seq<Token>)
    ensures Visible(Skips(t) + rest) == Visible(rest)
  {
    if |t| == 0 {
      assert Skips(t) + rest == rest;
    } else {
      VisibleSkips(t[1..], rest);
      assert (Skips(t) + rest)[1..] == Skips(t[1..]) + rest;
    }
  }

  lemma TailInvisible(after: string)
    ensures Visible(Tail(after)) == []
  {
    var rest := [Key(OkWord)] + Skips(after);
    VisibleSkips(['\r', '\n'], rest);
    assert Skips(['\r', '\n']) == [Skip, Skip];
  }

  /** An argument field shows the argument, whatever invisible tail follows it. */
  lemma PlainValue(a: string, tail: seq<Token>)
    requires Free(tail, {Colon}) && Visible(tail) == []
    ensures Value(Chars(a) + tail) == a
  {
    SplitFree(Chars(a) + tail, {Colon});
    VisibleChars(a, tail);
  }

  /** What stands before the colon does not count. */
  lemma HeadValue(before: string, name: string, field: seq<Token>)
    ensures Value(Head(before, name) + field) == Value(field)
  {
    SplitAtSeparator(Skips(before) + Chars(name), Colon, field, {Colon});
  }

  /** The comma fields of a printed reply. */
  function Fields(before: string, name: string, args: seq<string>, after: string): seq<seq<Token>>
    requires args != []
  {
    var headed := [Head(before, name) + Chars(args[0])] + AllChars(args)[1..];
    DropLast(headed) + [Last(headed) + Tail(after)]
  }

  lemma FieldValue(before: string, name: string, args: seq<string>, after: string, i: nat)
    requires i < |args|
    ensures Free(Fields(before, name, args, after)[i], BAD)
    ensures Value(Fields(before, name, args, after)[i]) == args[i]
  {
    PartsFree(before, name, args[i], after);
    TailInvisible(after);
    var tail := if i == |args| - 1 then Tail(after) else [];
    PlainValue(args[i], tail);
    FreeConcat(Chars(args[i]), tail, BAD);
    if i == 0 {
      HeadValue(before, name, Chars(args[i]) + tail);
      FreeConcat(Head(before, name), Chars(args[i]) + tail, BAD);
      assert Fields(before, name, args, after)[i] == Head(before, name) + (Chars(args[i]) + tail);
    } else {
      assert Fields(before, name, args, after)[i] == Chars(args[i]) + tail;
    }
  }

  lemma PrintedFields(before: string, name: string, args: seq<string>, after: string)
    requires args != []
    ensures var ts := Head(before, name) + Join(AllChars(args), Comma) + Tail(after);
            Split(ts, {Comma}) == Fields(before, name, args, after) && Free(ts, {Key(ErrorWord), Key(CmeErrorWord)})
  {
    var fields := AllChars(args);
    var headed := [Head(before, name) + fields[0]] + fields[1..];
    var all := Fields(before, name, args, after);
    JoinPrepend(Head(before, name), fields, Comma);
    JoinAppend(headed, Tail(after), Comma);
    forall i | 0 <= i < |all| ensures Free(all[i], BAD) {
      FieldValue(before, name, args, after, i);
    }
    SplitJoin(all, Comma);
    JoinMembers(all, Comma, {Key(ErrorWord), Key(CmeErrorWord)});
  }

  lemma {:induction false} NoErrorName(ts: seq<Token>)
    requires Free(ts, {Key(ErrorWord), Key(CmeErrorWord)})
    ensures ErrorName(ts) == None
  {
    if |ts| != 0 {
      assert Last(ts) in ts && forall t <- DropLast(ts) :: t in ts;
      assert Last(ts).Key? ==> Last(ts) == Key(Last(ts).word);
      NoErrorName(DropLast(ts));
    }
  }

  lemma {:induction false} KindAfterSkips(ts: seq<Token>, t: string)
    ensures KindOf(ts + Skips(t)) == KindOf(ts)
  {
    if |t| == 0 {
      assert ts + Skips(t) == ts;
    } else {
      KindAfterSkips(ts, DropLast(t));
      assert DropLast(ts + Skips(t)) == ts + Skips(DropLast(t));
    }
  }

  lemma PrintedKind(ts: seq<Token>, after: string)
    ensures KindOf(ts + Tail(after)) == OkKind
  {
    var front := ts + [Skip, Skip] + [Key(OkWord)];
    assert ts + Tail(after) == front + Skips(after);
    KindAfterSkips(front, after);
  }

  lemma PrintedName(before: string, name: string, rest: seq<Token>)
    ensures HasColon(Head(before, name) + rest) && ColonName(Head(before, name) + rest) == name
  {
    var front := Skips(before) + Chars(name);
    PartsFree(before, name, name, name);
    FreeConcat(Skips(before), Chars(name), BAD + {Colon});
    SplitAtSeparator(front, Colon, rest, {Colon});
    SplitFree(front, {Colon});
    SplitFree(front, {Comma});
    VisibleSkips(before, Chars(name));
    VisibleChars(name, []);
    assert Chars(name) + [] == Chars(name);
  }

  /** A printed reply parses to its name, the OK kind and exactly its arguments. */
  lemma RoundTrip(before: string, name: string, args: seq<string>, after: string)
    requires LineEnd(before) && Plain(name) && PlainArgs(args) && LineEnd(after)
    ensures Parse(Print(before, name, args, after)) == Response(Some(name), OkKind, args)
  {
    LexPrinted(before, name, args, after);
    var body := Join(AllChars(args), Comma);
    var ts := Head(before, name) + body + Tail(after);
    assert Lex(Print(before, name, args, after)) == ts by {
      Associates(Skips(before), Chars(name), [Colon] + (body + Tail(after)));
      Associates(Skips(before) + Chars(name), [Colon], body + Tail(after));
      Associates(Head(before, name), body, Tail(after));
    }
    PrintedFields(before, name, args, after);
    NoErrorName(ts);
    Associates(Head(before, name), body, Tail(after));
    PrintedName(before, name, body + Tail(after));
    PrintedKind(Head(before, name) + body, after);
    forall i | 0 <= i < |args| ensures Value(Fields(before, name, args, after)[i]) == args[i] {
      FieldValue(before, name, args, after, i);
    }
    assert ArgsOf(Fields(before, name, args, after)) == args;
  }
}
