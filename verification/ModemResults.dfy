/** The final results of a modem as text, and other shapes a response can have
    (core/src/AtResponseParser.cpp). */
module ModemResults {
  import opened Text
  import opened AtResponseParser

  // ----- Keywords in the text

  lemma LexError(s: string)
    ensures Lex("ERROR" + s) == [Key(ErrorWord)] + Lex(s)
  {
    var r := "ERROR" + s;
    assert Word(OkWord)[0] == 'O' && r[0] == 'E' && Word(ErrorWord) <= r;
    assert r[|Word(ErrorWord)|..] == s;
  }

  lemma LexCmeError(s: string)
    ensures Lex("+CME ERROR" + s) == [Key(CmeErrorWord)] + Lex(s)
  {
    var r := "+CME ERROR" + s;
    assert Word(OkWord)[0] == 'O' && Word(ErrorWord)[0] == 'E' && r[0] == '+' && Word(CmeErrorWord) <= r;
    assert r[|Word(CmeErrorWord)|..] == s;
  }

  lemma LexOkText(s: string)
    ensures Lex("OK" + s) == [Key(OkWord)] + Lex(s)
  {
    LexOk(s);
    assert Word(OkWord) == "OK";
  }

  // ----- What the tokens of a result mean

  predicate Wordless(ts: seq<Token>) {
    forall t <- ts :: !t.Key?
  }

  /** Kind and error name come from the last keyword. */
  lemma {:induction false} LastWordRules(ts: seq<Token>, rest: seq<Token>)
    requires Wordless(rest)
    ensures KindOf(ts + rest) == KindOf(ts) && ErrorName(ts + rest) == ErrorName(ts)
  {
    if |rest| == 0 {
      assert ts + rest == ts;
    } else {
      assert Last(rest) in rest && forall t <- DropLast(rest) :: t in rest;
      LastWordRules(ts, DropLast(rest));
      assert DropLast(ts + rest) == ts + DropLast(rest);
    }
  }

  lemma WordRules(before: seq<Token>, k: Keyword, rest: seq<Token>)
    requires Wordless(rest)
    ensures KindOf(before + ([Key(k)] + rest)) == KindOfWord(k)
    ensures k != OkWord ==> NameOf(before + ([Key(k)] + rest)) == Some(Word(k))
  {
    Associates(before, [Key(k)], rest);
    Unsnoc(before, Key(k));
    LastWordRules(before + [Key(k)], rest);
  }

  lemma SkipsShowNothing(t: string)
    ensures Visible(Skips(t)) == []
  {
    VisibleSkips(t, []);
    assert Skips(t) + [] == Skips(t);
  }

  /** Whatever stands before the last colon, the field starts after it. */
  lemma {:induction false} SplitAtColon(front: seq<Token>, field: seq<Token>)
    requires Free(field, {Colon})
    ensures FieldTail(front + [Colon] + field) == field
  {
    if |field| == 0 {
      SplitSnoc(front, Colon, {Colon});
      assert front + [Colon] + field == front + [Colon];
    } else {
      var f0, t := DropLast(field), Last(field);
      assert t in field && forall u <- f0 :: u in field;
      SplitAtColon(front, f0);
      assert front + [Colon] + field == front + [Colon] + f0 + [t];
      FieldTailSnoc(front + [Colon] + f0, t);
      Whole(field);
    }
  }

  /** A list without a comma has one argument, the visible text after its last colon. */
  lemma OneArgument(ts: seq<Token>, text: string)
    requires Free(ts, {Comma}) && Visible(FieldTail(ts)) == text
    ensures ArgsOf(Split(ts, {Comma})) == [text]
  {
    SplitFree(ts, {Comma});
  }

  lemma BareShows(before: string, k: Keyword, after: string)
    ensures Visible(Skips(before) + ([Key(k)] + Skips(after))) == ""
  {
    VisibleSkips(before, [Key(k)] + Skips(after));
  }

  /** Between line ends, a keyword leaves one empty argument. */
  lemma BareArgument(before: string, k: Keyword, after: string)
    ensures ArgsOf(Split(Skips(before) + ([Key(k)] + Skips(after)), {Comma})) == [""]
  {
    var ts := Skips(before) + ([Key(k)] + Skips(after));
    SplitFree(ts, {Colon});
    BareShows(before, k, after);
    OneArgument(ts, "");
  }

  /** Plain text and a line end show the text. */
  lemma LineShows(d: string, after: string)
    ensures Visible(Chars(d) + Skips(after)) == d
    ensures Free(Chars(d) + Skips(after), {Comma, Colon}) && Wordless(Chars(d) + Skips(after))
  {
    SkipsShowNothing(after);
    VisibleChars(d, Skips(after));
    assert d + [] == d;
  }

  /** An argument after a colon, whatever stands before it. */
  lemma ColonArgument(front: seq<Token>, d: string, after: string)
    requires Free(front, {Comma})
    ensures ArgsOf(Split(front + ([Colon] + (Chars(d) + Skips(after))), {Comma})) == [d]
  {
    var field := Chars(d) + Skips(after);
    LineShows(d, after);
    SplitAtColon(front, field);
    Associates(front, [Colon], field);
    OneArgument(front + ([Colon] + field), d);
  }

  // ----- The results

  /** ERROR between any line ends. */
  lemma ErrorParses(before: string, after: string)
    requires LineEnd(before) && LineEnd(after)
    ensures Parse(before + ("ERROR" + after)) == Response(Some("ERROR"), ErrorKind, [""])
  {
    LexLineEnd(before, "ERROR" + after);
    LexError(after);
    LexBareLineEnd(after);
    WordRules(Skips(before), ErrorWord, Skips(after));
    BareArgument(before, ErrorWord, after);
  }

  lemma LexBareLineEnd(t: string)
    requires LineEnd(t)
    ensures Lex(t) == Skips(t)
  {
    LexLineEnd(t, []);
    assert t + [] == t && Skips(t) + [] == Skips(t);
  }

  lemma LexLine(d: string, after: string)
    requires LineEnd(after) && Plain(d)
    ensures Lex(d + after) == Chars(d) + Skips(after)
  {
    LexPlain(d, after);
    LexBareLineEnd(after);
  }

  lemma LexCme(before: string, d: string, after: string)
    requires LineEnd(before) && LineEnd(after) && Plain(d) && (d != "" ==> d[0] != ' ')
    ensures Lex(before + ("+CME ERROR" + ([':'] + ([' '] + (d + after)))))
         == Skips(before) + ([Key(CmeErrorWord)] + ([Colon] + (Chars(d) + Skips(after))))
  {
    LexLineEnd(before, "+CME ERROR" + ([':'] + ([' '] + (d + after))));
    LexCmeError([':'] + ([' '] + (d + after)));
    LexColon(d + after);
    LexLine(d, after);
  }

  lemma CmeMeans(before: string, d: string, after: string)
    ensures Interpret(Skips(before) + ([Key(CmeErrorWord)] + ([Colon] + (Chars(d) + Skips(after)))))
         == Response(Some("+CME ERROR"), CmeErrorKind, [d])
  {
    var rest := [Colon] + (Chars(d) + Skips(after));
    LineShows(d, after);
    WordRules(Skips(before), CmeErrorWord, rest);
    ColonArgument(Skips(before) + [Key(CmeErrorWord)], d, after);
    Associates(Skips(before), [Key(CmeErrorWord)], rest);
  }

  /** +CME ERROR with any plain cause. */
  lemma CmeErrorParses(before: string, d: string, after: string)
    requires LineEnd(before) && LineEnd(after) && Plain(d) && (d != "" ==> d[0] != ' ')
    ensures Parse(before + ("+CME ERROR" + ([':'] + ([' '] + (d + after)))))
         == Response(Some("+CME ERROR"), CmeErrorKind, [d])
  {
    LexCme(before, d, after);
    CmeMeans(before, d, after);
  }

  lemma LexOkLine(before: string, after: string)
    requires LineEnd(before) && LineEnd(after)
    ensures Lex(before + ("OK" + after)) == Skips(before) + ([Key(OkWord)] + Skips(after))
  {
    LexLineEnd(before, "OK" + after);
    LexOkText(after);
    LexBareLineEnd(after);
  }

  lemma OkIsName(before: string, after: string)
    ensures NameOf(Skips(before) + ([Key(OkWord)] + Skips(after))) == Some("OK")
  {
    var ts := Skips(before) + ([Key(OkWord)] + Skips(after));
    NoErrorName(ts);
    SplitFree(ts, {Colon});
    assert ts[|before|] == Key(OkWord) && Word(OkWord) == "OK";
  }

  /** OK between any line ends. */
  lemma OkParses(before: string, after: string)
    requires LineEnd(before) && LineEnd(after)
    ensures Parse(before + ("OK" + after)) == Response(Some("OK"), OkKind, [""])
  {
    LexOkLine(before, after);
    OkIsName(before, after);
    WordRules(Skips(before), OkWord, Skips(after));
    BareArgument(before, OkWord, after);
  }

  // ----- Other shapes

  /** A colon takes all the spaces after it. */
  lemma SpacesAfterColon(spaces: string, s: string)
    requires (forall i :: 0 <= i < |spaces| ==> spaces[i] == ' ') && (s != "" ==> s[0] != ' ')
    ensures Lex([':'] + (spaces + s)) == [Colon] + Lex(s)
  {
    NoKeyword([':'] + (spaces + s));
    assert ([':'] + (spaces + s))[1..] == spaces + s;
    SpacesSkip(spaces, s);
  }

  lemma {:induction false} SpacesSkip(spaces: string, s: string)
    requires (forall i :: 0 <= i < |spaces| ==> spaces[i] == ' ') && (s != "" ==> s[0] != ' ')
    ensures SkipSpaces(spaces + s) == s
  {
    if |spaces| == 0 {
      assert spaces + s == s;
    } else {
      assert (spaces + s)[1..] == spaces[1..] + s;
      SpacesSkip(spaces[1..], s);
    }
  }

  /** The tokens of a name, a colon and what follows it. */
  lemma LexHead(before: string, name: string, rest: string)
    requires LineEnd(before) && Plain(name) && (rest != "" ==> rest[0] != ' ')
    ensures Lex(before + (name + ([':'] + ([' '] + rest)))) == Head(before, name) + Lex(rest)
  {
    LexLineEnd(before, name + ([':'] + ([' '] + rest)));
    LexPlain(name, [':'] + ([' '] + rest));
    LexColon(rest);
    Associates(Skips(before), Chars(name), [Colon] + Lex(rest));
    Associates(Skips(before) + Chars(name), [Colon], Lex(rest));
  }

  lemma NameAtHead(before: string, name: string, rest: seq<Token>)
    requires ErrorName(Head(before, name) + rest) == None
    ensures NameOf(Head(before, name) + rest) == Some(name)
  {
    PrintedName(before, name, rest);
  }

  /** A second colon resets the argument, and the name stays. */
  lemma ColonResets(before: string, name: string, a: string, b: string, after: string)
    requires LineEnd(before) && LineEnd(after) && Plain(name) && Plain(a) && Plain(b)
    requires (a != "" ==> a[0] != ' ') && (b != "" ==> b[0] != ' ')
    ensures Parse(before + (name + ([':'] + ([' '] + (a + ([':'] + ([' '] + (b + after))))))))
         == Response(Some(name), Urc, [b])
  {
    LexHead(before, name, a + ([':'] + ([' '] + (b + after))));
    LexPlain(a, [':'] + ([' '] + (b + after)));
    LexColon(b + after);
    LexLine(b, after);
    ResetMeans(before, name, a, b, after);
  }

  lemma HeadIsOpen(before: string, name: string, a: string)
    ensures Free(Head(before, name) + Chars(a), {Comma}) && Wordless(Head(before, name) + Chars(a))
  {
  }

  lemma ResetMeans(before: string, name: string, a: string, b: string, after: string)
    ensures Interpret(Head(before, name) + (Chars(a) + ([Colon] + (Chars(b) + Skips(after)))))
         == Response(Some(name), Urc, [b])
  {
    var field := [Colon] + (Chars(b) + Skips(after));
    var rest := Chars(a) + field;
    HeadIsOpen(before, name, a);
    LineShows(b, after);
    Associates(Head(before, name), Chars(a), field);
    UnsolicitedTokens((Head(before, name) + Chars(a)) + field);
    NameAtHead(before, name, rest);
    ColonArgument(Head(before, name) + Chars(a), b, after);
  }

  lemma {:induction false} UnsolicitedTokens(ts: seq<Token>)
    requires Wordless(ts)
    ensures KindOf(ts) == Urc && ErrorName(ts) == None
  {
    LastWordRules([], ts);
    assert [] + ts == ts;
  }

  /** A keyword after a quote hides the rest of the argument. */
  lemma KeywordHides(before: string, name: string, a: string, b: string, after: string)
    requires LineEnd(before) && LineEnd(after) && Plain(name) && Plain(a) && Plain(b)
    requires a != "" ==> a[0] != ' '
    ensures Parse(before + (name + ([':'] + ([' '] + (a + (['\"'] + ("OK" + (b + after))))))))
         == Response(Some(name), OkKind, [a])
  {
    LexHead(before, name, a + (['\"'] + ("OK" + (b + after))));
    LexPlain(a, ['\"'] + ("OK" + (b + after)));
    LexQuote("OK" + (b + after));
    LexOkText(b + after);
    LexLine(b, after);
    HiddenMeans(before, name, a, b, after);
  }

  /** What stands behind a keyword does not show. */
  lemma HiddenShows(a: string, hidden: seq<Token>)
    requires |hidden| > 0 && hidden[0].Key?
    ensures Visible(Chars(a) + ([Skip] + hidden)) == a
  {
    VisibleChars(a, [Skip] + hidden);
    assert ([Skip] + hidden)[1..] == hidden && a + [] == a;
  }

  lemma HiddenArgument(before: string, name: string, a: string, hidden: seq<Token>)
    requires |hidden| > 0 && hidden[0].Key? && Free(hidden, {Comma, Colon})
    ensures ArgsOf(Split(Head(before, name) + (Chars(a) + ([Skip] + hidden)), {Comma})) == [a]
  {
    var field := Chars(a) + ([Skip] + hidden);
    HiddenShows(a, hidden);
    HeadIsOpen(before, name, "");
    SplitAtColon(Skips(before) + Chars(name), field);
    OneArgument(Head(before, name) + field, a);
  }

  lemma HiddenMeans(before: string, name: string, a: string, b: string, after: string)
    ensures Interpret(Head(before, name) + (Chars(a) + ([Skip] + ([Key(OkWord)] + (Chars(b) + Skips(after))))))
         == Response(Some(name), OkKind, [a])
  {
    var line := Chars(b) + Skips(after);
    var hidden := [Key(OkWord)] + line;
    var field := Chars(a) + ([Skip] + hidden);
    LineShows(b, after);
    HiddenArgument(before, name, a, hidden);
    Associates(Chars(a), [Skip], hidden);
    Associates(Head(before, name), Chars(a) + [Skip], hidden);
    WordRules(Head(before, name) + (Chars(a) + [Skip]), OkWord, line);
    HeadIsOpen(before, name, a);
    OnlyOk(Head(before, name) + (Chars(a) + [Skip]), line);
    NameAtHead(before, name, field);
  }

  lemma OnlyOk(front: seq<Token>, rest: seq<Token>)
    requires Wordless(front) && Wordless(rest)
    ensures ErrorName(front + ([Key(OkWord)] + rest)) == None
  {
    NoErrorName(front + ([Key(OkWord)] + rest));
  }

  lemma LexQuote(s: string)
    ensures Lex(['\"'] + s) == [Skip] + Lex(s)
  {
    NoKeyword(['\"'] + s);
    LexChar('\"', s);
  }
}
