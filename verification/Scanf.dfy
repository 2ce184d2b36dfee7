/** The fragment of sscanf that the persistence layer uses: literal characters,
    white space, %d and %s. */
module Scanf {
  import opened Text

  datatype Directive = Lit(c: char) | White | Int | Str

  datatype Item = Number(n: int) | Token(s: string)

  predicate IsSpace(c: char) {
    c == ' ' || c == '\t' || c == '\n' || c as int == 11 || c as int == 12 || c == '\r'
  }

  /** A string that "%s" reads back whole. */
  predicate Clean(s: string) {
    s != "" && forall i :: 0 <= i < |s| ==> !IsSpace(s[i])
  }

  function SkipWhite(s: string): (r: string)
    ensures |r| <= |s| && (r != "" ==> !IsSpace(r[0]))
  {
    if |s| > 0 && IsSpace(s[0]) then SkipWhite(s[1..]) else s
  }

  /** Length of the leading run without white space. */
  function TokenLength(s: string): (n: nat)
    ensures n <= |s|
  {
    if |s| == 0 || IsSpace(s[0]) then 0 else 1 + TokenLength(s[1..])
  }

  /** Length of the leading run of digits. */
  function DigitsLength(s: string): (n: nat)
    ensures n <= |s|
    ensures forall i :: 0 <= i < n ==> IsDigit(s[i])
  {
    if |s| == 0 || !IsDigit(s[0]) then 0 else 1 + DigitsLength(s[1..])
  }

  function DigitsValue(s: string): nat
    requires forall i :: 0 <= i < |s| ==> IsDigit(s[i])
  {
    if |s| == 0 then 0
    else
      assert IsDigit(s[|s| - 1]);
      10 * DigitsValue(DropLast(s)) + (s[|s| - 1] as int - '0' as int)
  }

  predicate HasSign(s: string) {
    |s| > 0 && (s[0] == '-' || s[0] == '+')
  }

  /** The integer at the front of s and how long it is; length 0 when there is none. */
  function ScanInt(s: string): (r: (int, nat))
    ensures r.1 <= |s|
  {
    if HasSign(s) then
      var (value, n) := ScanNat(s[1..]);
      if n == 0 then (0, 0) else (if s[0] == '-' then -value else value, 1 + n)
    else ScanNat(s)
  }

  function ScanNat(s: string): (r: (int, nat))
    ensures r.1 <= |s|
  {
    var n := DigitsLength(s);
    (DigitsValue(s[..n]), n)
  }

  /** The conversions made before the first mismatch. */
  function Scan(fmt: seq<Directive>, s: string): seq<Item>
    decreases |fmt|, |s|
  {
    if |fmt| == 0 then []
    else
      match fmt[0]
      case Lit(c) => if |s| > 0 && s[0] == c then Scan(fmt[1..], s[1..]) else []
      case White => Scan(fmt[1..], SkipWhite(s))
      case Int =>
        var t := SkipWhite(s);
        var (value, n) := ScanInt(t);
        if n == 0 then [] else [Number(value)] + Scan(fmt[1..], t[n..])
      case Str =>
        var t := SkipWhite(s);
        var n := TokenLength(t);
        if n == 0 then [] else [Token(t[..n])] + Scan(fmt[1..], t[n..])
  }

  /** The directives of a format text without conversions. */
  function Format(text: string): seq<Directive> {
    seq(|text|, i requires 0 <= i < |text| => if text[i] == ' ' then White else Lit(text[i]))
  }

  /** The conversions of a format, in order. */
  function Conversions(fmt: seq<Directive>): seq<Directive> {
    if |fmt| == 0 then []
    else if fmt[0].Int? || fmt[0].Str? then [fmt[0]] + Conversions(fmt[1..])
    else Conversions(fmt[1..])
  }

  lemma {:induction false} ConversionsConcat(a: seq<Directive>, b: seq<Directive>)
    ensures Conversions(a + b) == Conversions(a) + Conversions(b)
  {
    if |a| == 0 {
      assert a + b == b;
    } else {
      assert (a + b)[1..] == a[1..] + b;
      ConversionsConcat(a[1..], b);
    }
  }

  lemma {:induction false} FormatHasNoConversion(text: string)
    ensures Conversions(Format(text)) == []
  {
    if |text| != 0 {
      assert Format(text)[1..] == Format(text[1..]);
      FormatHasNoConversion(text[1..]);
    }
  }

  /** Items come in the order and of the types of the conversions; strings are clean. */
  lemma {:induction false} ScanShape(fmt: seq<Directive>, s: string)
    ensures |Scan(fmt, s)| <= |Conversions(fmt)|
    ensures forall i :: 0 <= i < |Scan(fmt, s)| ==>
              if Conversions(fmt)[i].Int? then Scan(fmt, s)[i].Number?
              else Scan(fmt, s)[i].Token? && Clean(Scan(fmt, s)[i].s)
    decreases |fmt|
  {
    if |fmt| != 0 {
      var rest := fmt[1..];
      match fmt[0]
      case Lit(c) =>
        if |s| > 0 && s[0] == c {
          ScanShape(rest, s[1..]);
        }
      case White =>
        ScanShape(rest, SkipWhite(s));
      case Int =>
        var t := SkipWhite(s);
        ScanShape(rest, t[ScanInt(t).1..]);
      case Str =>
        var t := SkipWhite(s);
        var n := TokenLength(t);
        ScanShape(rest, t[n..]);
        TokenIsClean(t);
    }
  }

  lemma {:induction false} TokenIsClean(s: string)
    ensures forall i :: 0 <= i < TokenLength(s) ==> !IsSpace(s[i])
  {
    if |s| != 0 && !IsSpace(s[0]) {
      TokenIsClean(s[1..]);
      forall i | 0 <= i < TokenLength(s) ensures !IsSpace(s[i]) {
        if i > 0 {
          assert s[i] == s[1..][i - 1];
        }
      }
    }
  }

  /** A prefix of a format scans to a prefix of the items: all of them, or as many as it has
      conversions. */
  lemma {:induction false} ScanPrefix(fmt: seq<Directive>, more: seq<Directive>, s: string)
    ensures Scan(fmt, s) <= Scan(fmt + more, s)
    ensures |Scan(fmt + more, s)| > |Scan(fmt, s)| ==> |Scan(fmt, s)| == |Conversions(fmt)|
    decreases |fmt|
  {
    if |fmt| == 0 {
      assert fmt + more == more;
    } else {
      var rest := fmt[1..];
      assert (fmt + more)[1..] == rest + more;
      match fmt[0]
      case Lit(c) =>
        if |s| > 0 && s[0] == c {
          ScanPrefix(rest, more, s[1..]);
        }
      case White =>
        ScanPrefix(rest, more, SkipWhite(s));
      case Int =>
        var t := SkipWhite(s);
        ScanPrefix(rest, more, t[ScanInt(t).1..]);
      case Str =>
        var t := SkipWhite(s);
        ScanPrefix(rest, more, t[TokenLength(t)..]);
    }
  }

  // ----- Scanning what was printed

  lemma {:induction false} ScanLiteral(text: string, fmt: seq<Directive>, s: string)
    requires forall i :: 0 <= i < |text| ==> text[i] != ' '
    ensures Scan(Format(text) + fmt, text + s) == Scan(fmt, s)
  {
    if |text| == 0 {
      assert Format(text) + fmt == fmt && text + s == s;
    } else {
      assert (Format(text) + fmt)[1..] == Format(text[1..]) + fmt;
      assert (text + s)[1..] == text[1..] + s;
      ScanLiteral(text[1..], fmt, s);
    }
  }

  /** A blank in the format skips the blank in the text. */
  lemma ScanBlank(fmt: seq<Directive>, s: string)
    requires s != "" && !IsSpace(s[0])
    ensures Scan([White] + fmt, [' '] + s) == Scan(fmt, s)
  {
    assert ([White] + fmt)[1..] == fmt;
    assert ([' '] + s)[1..] == s;
  }

  lemma {:induction false} TokenEnds(s: string, rest: string)
    requires forall i :: 0 <= i < |s| ==> !IsSpace(s[i])
    requires rest == "" || IsSpace(rest[0])
    ensures TokenLength(s + rest) == |s|
  {
    if |s| == 0 {
      assert s + rest == rest;
    } else {
      assert (s + rest)[1..] == s[1..] + rest;
      TokenEnds(s[1..], rest);
    }
  }

  lemma ScanToken(fmt: seq<Directive>, s: string, rest: string)
    requires Clean(s) && (rest == "" || IsSpace(rest[0]))
    ensures Scan([Str] + fmt, s + rest) == [Token(s)] + Scan(fmt, rest)
  {
    TokenEnds(s, rest);
    assert ([Str] + fmt)[1..] == fmt;
    assert (s + rest)[..|s|] == s && (s + rest)[|s|..] == rest;
  }

  lemma {:induction false} DigitsEnd(s: string, rest: string)
    requires forall i :: 0 <= i < |s| ==> IsDigit(s[i])
    requires rest == "" || !IsDigit(rest[0])
    ensures DigitsLength(s + rest) == |s|
  {
    if |s| == 0 {
      assert s + rest == rest;
    } else {
      assert (s + rest)[1..] == s[1..] + rest;
      DigitsEnd(s[1..], rest);
    }
  }

  lemma {:induction false} DecNatValue(n: nat)
    ensures DigitsValue(DecNat(n)) == n
  {
    var c := Digit(n % 10);
    assert IsDigit(c) && c as int - '0' as int == n % 10;
    if n < 10 {
      assert |DropLast([c])| == 0;
    } else {
      DecNatValue(n / 10);
      Unsnoc(DecNat(n / 10), c);
    }
  }

  lemma ScanDecNat(n: nat, rest: string)
    requires rest == "" || !IsDigit(rest[0])
    ensures ScanNat(DecNat(n) + rest) == (n, |DecNat(n)|)
  {
    var digits := DecNat(n);
    DigitsEnd(digits, rest);
    DecNatValue(n);
    assert (digits + rest)[..|digits|] == digits;
  }

  lemma ScanMinus(s: string)
    requires ScanNat(s).1 > 0
    ensures ScanInt(['-'] + s) == (-ScanNat(s).0, 1 + ScanNat(s).1)
  {
    assert (['-'] + s)[1..] == s;
  }

  lemma ScanUnsigned(s: string)
    requires s != "" && IsDigit(s[0])
    ensures ScanInt(s) == ScanNat(s)
  {
  }

  lemma ScanDec(n: int, rest: string)
    requires rest == "" || !IsDigit(rest[0])
    ensures ScanInt(Dec(n) + rest) == (n, |Dec(n)|)
  {
    if n < 0 {
      ScanDecNat(-n, rest);
      Associates(['-'], DecNat(-n), rest);
      ScanMinus(DecNat(-n) + rest);
    } else {
      ScanDecNat(n, rest);
      ScanUnsigned(DecNat(n) + rest);
    }
  }

  lemma ScanNumber(fmt: seq<Directive>, n: int, rest: string)
    requires rest == "" || !IsDigit(rest[0])
    ensures Scan([Int] + fmt, Dec(n) + rest) == [Number(n)] + Scan(fmt, rest)
  {
    ScanDec(n, rest);
    assert ([Int] + fmt)[1..] == fmt;
    assert (Dec(n) + rest)[|Dec(n)|..] == rest;
    assert SkipWhite(Dec(n) + rest) == Dec(n) + rest;
  }
}
