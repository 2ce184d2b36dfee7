/** Text primitives shared by the parsers and the persistence layer: C strings,
    character stripping, splitting at separators and caseless comparison. */
module Text {

  datatype Option<+T> = None | Some(value: T)

  function Last<T>(s: seq<T>): T
    requires s != []
  {
    s[|s| - 1]
  }

  function DropLast<T>(s: seq<T>): seq<T>
    requires s != []
  {
    s[..|s| - 1]
  }

  lemma Whole<T>(s: seq<T>)
    requires s != []
    ensures DropLast(s) + [Last(s)] == s
  {
  }

  lemma Unsnoc<T>(s: seq<T>, x: T)
    ensures DropLast(s + [x]) == s && Last(s + [x]) == x
  {
  }

  lemma HeadAndTail<T>(s: seq<T>, more: seq<T>)
    requires s != []
    ensures s + more == [s[0]] + (s[1..] + more)
  {
  }

  lemma Associates<T>(x: seq<T>, y: seq<T>, z: seq<T>)
    ensures (x + y) + z == x + (y + z)
  {
  }

  // ----- Splitting

  /** The fields of s between separators; n separators give n + 1 fields. */
  function Split<T(==)>(s: seq<T>, seps: set<T>): (r: seq<seq<T>>)
    ensures r != []
  {
    if |s| == 0 then [s]
    else
      ExtendFields(Split(DropLast(s), seps), Last(s), seps)
  }

  /** The fields after reading one more element. */
  function ExtendFields<T(==)>(fields: seq<seq<T>>, c: T, seps: set<T>): (r: seq<seq<T>>)
    requires fields != []
    ensures r != []
  {
    if c in seps then fields + [[c][..0]] else DropLast(fields) + [Last(fields) + [c]]
  }

  predicate Free<T(==)>(s: seq<T>, seps: set<T>) {
    forall c <- s :: c !in seps
  }

  lemma SplitSnoc<T>(s: seq<T>, c: T, seps: set<T>)
    ensures Split(s + [c], seps) == ExtendFields(Split(s, seps), c, seps)
  {
    assert DropLast(s + [c]) == s;
  }

  lemma ExtendLastField<T>(fields: seq<seq<T>>, b: seq<T>, c: T, seps: set<T>)
    requires fields != [] && c !in seps
    ensures ExtendFields(DropLast(fields) + [Last(fields) + b], c, seps)
         == DropLast(fields) + [Last(fields) + (b + [c])]
  {
    assert (Last(fields) + b) + [c] == Last(fields) + (b + [c]);
  }

  /** Separator-free text only lengthens the last field. */
  lemma {:induction false} SplitAppendFree<T>(a: seq<T>, b: seq<T>, seps: set<T>)
    requires Free(b, seps)
    ensures Split(a + b, seps) == DropLast(Split(a, seps)) + [Last(Split(a, seps)) + b]
  {
    if b == [] {
      assert a + b == a;
      assert Last(Split(a, seps)) + b == Last(Split(a, seps));
    } else {
      var b0, d := DropLast(b), Last(b);
      assert b == b0 + [d];
      calc {
        Split(a + b, seps);
        { assert a + b == (a + b0) + [d]; SplitSnoc(a + b0, d, seps); }
        ExtendFields(Split(a + b0, seps), d, seps);
        { SplitAppendFree(a, b0, seps); }
        ExtendFields(DropLast(Split(a, seps)) + [Last(Split(a, seps)) + b0], d, seps);
        { ExtendLastField(Split(a, seps), b0, d, seps); }
        DropLast(Split(a, seps)) + [Last(Split(a, seps)) + b];
      }
    }
  }

  /** Splitting distributes over concatenation at a separator. */
  lemma {:induction false} SplitAtSeparator<T>(a: seq<T>, c: T, b: seq<T>, seps: set<T>)
    requires c in seps
    ensures Split(a + [c] + b, seps) == Split(a, seps) + Split(b, seps)
  {
    if b == [] {
      assert a + [c] + b == a + [c];
      SplitSnoc(a, c, seps);
    } else {
      var b0, d := DropLast(b), Last(b);
      var l, r := Split(a, seps), Split(b0, seps);
      assert b == b0 + [d];
      assert Split(a + [c] + b, seps) == ExtendFields(l + r, d, seps) by {
        SplitAtSeparator(a, c, b0, seps);
        SplitSnoc(a + [c] + b0, d, seps);
        assert (a + [c] + b0) + [d] == a + [c] + b;
      }
      assert Split(b, seps) == ExtendFields(r, d, seps) by {
        SplitSnoc(b0, d, seps);
      }
      ExtendFieldsRight(l, r, d, seps);
    }
  }

  lemma ExtendFieldsRight<T>(l: seq<seq<T>>, r: seq<seq<T>>, c: T, seps: set<T>)
    requires r != []
    ensures ExtendFields(l + r, c, seps) == l + ExtendFields(r, c, seps)
  {
    assert Last(l + r) == Last(r) && DropLast(l + r) == l + DropLast(r);
  }

  lemma SplitFree<T>(s: seq<T>, seps: set<T>)
    requires Free(s, seps)
    ensures Split(s, seps) == [s]
  {
    SplitAppendFree([], s, seps);
    assert [] + s == s;
  }

  /** Splitting invents nothing. */
  lemma {:induction false} SplitMembers<T>(s: seq<T>, seps: set<T>, f: seq<T>, c: T)
    requires f in Split(s, seps) && c in f
    ensures c in s
  {
    if s != [] {
      var r := Split(DropLast(s), seps);
      if f in r {
        SplitMembers(DropLast(s), seps, f, c);
      } else {
        assert Last(s) !in seps && f == Last(r) + [Last(s)];
        assert Last(r) in r;
        if c in Last(r) {
          SplitMembers(DropLast(s), seps, Last(r), c);
        }
      }
    }
  }

  /** No separator is left in a field. */
  lemma {:induction false} SplitFields<T>(s: seq<T>, seps: set<T>)
    ensures forall f <- Split(s, seps) :: Free(f, seps)
  {
    if |s| != 0 {
      SplitFields(DropLast(s), seps);
      var fields := Split(DropLast(s), seps);
      assert Last(fields) in fields;
      forall f | f in Split(s, seps) ensures Free(f, seps) {
        assert f in fields || |f| == 0 || f == Last(fields) + [Last(s)];
      }
    }
  }

  lemma FreeConcat<T>(a: seq<T>, b: seq<T>, seps: set<T>)
    requires Free(a, seps) && Free(b, seps)
    ensures Free(a + b, seps)
  {
  }

  /** A single field is the whole, separator-free text. */
  lemma {:induction false} SplitOne<T>(s: seq<T>, seps: set<T>)
    requires |Split(s, seps)| == 1
    ensures Split(s, seps) == [s] && Free(s, seps)
  {
    if |s| != 0 {
      SplitOne(DropLast(s), seps);
      assert Last(s) !in seps;
      Whole(s);
      assert forall c <- s :: c in DropLast(s) || c == Last(s);
    }
  }

  // ----- Joining, the inverse of splitting

  function Join<T>(fields: seq<seq<T>>, sep: T): seq<T>
    requires fields != []
  {
    if |fields| == 1 then fields[0] else Join(DropLast(fields), sep) + [sep] + Last(fields)
  }

  lemma {:induction false} SplitJoin<T>(fields: seq<seq<T>>, sep: T)
    requires fields != [] && forall f <- fields :: sep !in f
    ensures Split(Join(fields, sep), {sep}) == fields
  {
    assert Free(Last(fields), {sep}) by { assert Last(fields) in fields; }
    if |fields| == 1 {
      assert fields == [Last(fields)];
      SplitFree(fields[0], {sep});
    } else {
      SplitJoin(DropLast(fields), sep);
      SplitAtSeparator(Join(DropLast(fields), sep), sep, Last(fields), {sep});
      SplitFree(Last(fields), {sep});
      assert DropLast(fields) + [Last(fields)] == fields;
    }
  }

  /** Joining adds nothing but separators. */
  lemma {:induction false} JoinMembers<T>(fields: seq<seq<T>>, sep: T, bad: set<T>)
    requires fields != [] && sep !in bad && forall f <- fields :: Free(f, bad)
    ensures Free(Join(fields, sep), bad)
  {
    if |fields| > 1 {
      JoinMembers(DropLast(fields), sep, bad);
      assert Free(Last(fields), bad) by { assert Last(fields) in fields; }
    } else {
      assert Join(fields, sep) in fields;
    }
  }

  lemma {:induction false} JoinPrepend<T>(a: seq<T>, fields: seq<seq<T>>, sep: T)
    requires fields != []
    ensures a + Join(fields, sep) == Join([a + fields[0]] + fields[1..], sep)
  {
    var longer := [a + fields[0]] + fields[1..];
    if |fields| > 1 {
      JoinPrepend(a, DropLast(fields), sep);
      assert DropLast(longer) == [a + fields[0]] + DropLast(fields)[1..];
      assert Last(longer) == Last(fields);
      assert a + (Join(DropLast(fields), sep) + [sep] + Last(fields))
          == (a + Join(DropLast(fields), sep)) + [sep] + Last(fields);
    }
  }

  lemma JoinAppend<T>(fields: seq<seq<T>>, b: seq<T>, sep: T)
    requires fields != []
    ensures Join(fields, sep) + b == Join(DropLast(fields) + [Last(fields) + b], sep)
  {
    Unsnoc(DropLast(fields), Last(fields) + b);
    if |fields| > 1 {
      assert (Join(DropLast(fields), sep) + [sep] + Last(fields)) + b
          == Join(DropLast(fields), sep) + [sep] + (Last(fields) + b);
    }
  }

  // ----- C strings

  /** What a C function sees of a buffer: everything before the first NUL. */
  function CStr(s: string): (r: string)
    ensures r <= s && '\0' !in r
    ensures |r| < |s| ==> s[|r|] == '\0'
  {
    if |s| == 0 || s[0] == '\0' then [] else [s[0]] + CStr(s[1..])
  }

  lemma CStrCons(c: char, s: string)
    ensures CStr([c] + s) == if c == '\0' then [] else [c] + CStr(s)
  {
    assert ([c] + s)[1..] == s;
  }

  /** A loop that stops at a NUL or at len reads exactly the C string. */
  lemma CStrIndex(data: seq<char>, len: nat, p: nat)
    requires len < |data| && data[len] == '\0' && p <= |CStr(data[..len])|
    ensures p < |CStr(data[..len])| <==> p < len && data[p] != '\0'
    ensures p < |CStr(data[..len])| ==> data[p] == CStr(data[..len])[p]
  {
    var s := CStr(data[..len]);
    assert forall i :: 0 <= i < |s| ==> s[i] == data[..len][i] == data[i] && s[i] in s;
    if p == |s| < len {
      assert data[..len][p] == data[p];
    }
  }

  lemma {:induction false} CStrPrefix(a: string, b: string)
    requires '\0' !in a
    ensures CStr(a + b) == a + CStr(b)
  {
    if a == "" {
      assert a + b == b;
    } else {
      assert (a + b)[1..] == a[1..] + b;
      CStrPrefix(a[1..], b);
    }
  }

  lemma CStrIdentity(a: string)
    requires '\0' !in a
    ensures CStr(a) == a
  {
    CStrPrefix(a, "");
    assert a + "" == a;
  }

  /** Once a NUL is in the buffer, what is written after it stays hidden. */
  lemma CStrHidden(a: string, b: string)
    requires '\0' in a
    ensures CStr(a + b) == CStr(a)
  {
    if a[0] != '\0' {
      assert (a + b)[1..] == a[1..] + b;
      CStrHidden(a[1..], b);
    }
  }

  // ----- Characters the tokenisers delete

  predicate Deleted(c: char) {
    c == '\r' || c == '\n' || c == '\"'
  }

  function Strip(s: string): (r: string)
    ensures |r| <= |s|
  {
    if |s| == 0 then s
    else if Deleted(Last(s)) then Strip(DropLast(s))
    else Strip(DropLast(s)) + [Last(s)]
  }

  lemma StripSnoc(s: string, c: char)
    ensures Strip(s + [c]) == if Deleted(c) then Strip(s) else Strip(s) + [c]
  {
    assert DropLast(s + [c]) == s;
  }

  lemma {:induction false} StripConcat(a: string, b: string)
    ensures Strip(a + b) == Strip(a) + Strip(b)
  {
    if |b| == 0 {
      assert a + b == a;
    } else {
      var b0, d := DropLast(b), Last(b);
      StripConcat(a, b0);
      Whole(b);
      Associates(a, b0, [d]);
      StripSnoc(a + b0, d);
      StripSnoc(b0, d);
      Associates(Strip(a), Strip(b0), [d]);
    }
  }

  lemma {:induction false} StripIdentity(s: string)
    requires forall c <- s :: !Deleted(c)
    ensures Strip(s) == s
  {
    if |s| != 0 {
      assert !Deleted(Last(s)) by { assert Last(s) in s; }
      assert forall c <- DropLast(s) :: c in s;
      StripIdentity(DropLast(s));
      Whole(s);
    }
  }

  lemma {:induction false} StripDeleted(t: string)
    requires forall i :: 0 <= i < |t| ==> Deleted(t[i])
    ensures |Strip(t)| == 0
  {
    if |t| != 0 {
      StripDeleted(DropLast(t));
    }
  }

  /** Text on one line, without quotes. */
  predicate Undeleted(s: string) {
    forall c <- s :: !Deleted(c)
  }

  lemma {:induction false} StripKeepsNone(s: string)
    ensures Undeleted(Strip(s)) && forall c <- Strip(s) :: c in s
  {
    if |s| != 0 {
      StripKeepsNone(DropLast(s));
    }
  }

  // ----- Caseless comparison (strcasecmp in the C locale)

  function Lower(c: char): char {
    if 'A' <= c <= 'Z' then (c as int + 32) as char else c
  }

  predicate EqualsIgnoreCase(a: string, b: string) {
    |a| == |b| && forall i :: 0 <= i < |a| ==> Lower(a[i]) == Lower(b[i])
  }

  /** Two texts agree when each pair of letters is the same but for its case, and every other
      character is the same. */
  lemma CaseIsIgnored(a: string, b: string)
    ensures EqualsIgnoreCase(a, b) <==>
            |a| == |b| && forall i :: 0 <= i < |a| ==>
              || a[i] == b[i]
              || ('a' <= a[i] <= 'z' && a[i] as int == b[i] as int + 32)
              || ('A' <= a[i] <= 'Z' && b[i] as int == a[i] as int + 32)
  {
    if EqualsIgnoreCase(a, b) {
      forall i | 0 <= i < |a|
        ensures || a[i] == b[i]
                || ('a' <= a[i] <= 'z' && a[i] as int == b[i] as int + 32)
                || ('A' <= a[i] <= 'Z' && b[i] as int == a[i] as int + 32)
      {
        assert Lower(a[i]) == Lower(b[i]);
      }
    }
  }

  // ----- Decimal numbers as "%d" prints them

  function Digit(d: nat): char
    requires d < 10
  {
    (d + '0' as int) as char
  }

  predicate IsDigit(c: char) {
    '0' <= c <= '9'
  }

  function DecNat(n: nat): (r: string)
    ensures r != "" && forall c <- r :: IsDigit(c)
  {
    if n < 10 then [Digit(n)] else DecNat(n / 10) + [Digit(n % 10)]
  }

  function Dec(n: int): (r: string)
    ensures r != "" && forall c <- r :: IsDigit(c) || c == '-'
  {
    if n < 0 then ['-'] + DecNat(-n) else DecNat(n)
  }

  lemma DecReads()
    ensures Dec(0) == "0" && Dec(7) == "7" && Dec(-12) == "-12" && Dec(319) == "319"
  {
    assert DecNat(1) == "1" && DecNat(3) == "3" && DecNat(31) == "31";
  }
}
