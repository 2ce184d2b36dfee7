/** The zeroed buffer `tmp` and its write pointer `q`, which both tokenisers fill. */
module TokenBuffers {
  import opened Text

  class TokenBuffer {
    const tmp: array<char>
    var q: int

    /** Everything at or after the write pointer is still zero. */
    ghost predicate Valid()
      reads this, tmp
    {
      0 <= q < tmp.Length && forall i :: q <= i < tmp.Length ==> tmp[i] == '\0'
    }

    ghost function Written(): string
      reads this, tmp
      requires Valid()
    {
      tmp[..q]
    }

    constructor (size: nat)
      requires size > 0
      ensures Valid() && Written() == "" && tmp.Length == size && fresh(tmp)
    {
      tmp := new char[size](_ => '\0');
      q := 0;
    }

    /** memset, and q back to the start. */
    method Reset()
      requires Valid()
      modifies this, tmp
      ensures Valid() && Written() == ""
    {
      forall i | 0 <= i < tmp.Length {
        tmp[i] := '\0';
      }
      q := 0;
    }

    /** Store one character and advance. */
    method Put(c: char)
      requires Valid() && q + 1 < tmp.Length
      modifies this, tmp
      ensures Valid() && Written() == old(Written()) + [c]
    {
      tmp[q] := c;
      q := q + 1;
    }

    /** Advance over a position that stays zero. */
    method Leave()
      requires Valid() && q + 1 < tmp.Length
      modifies this
      ensures Valid() && Written() == old(Written()) + ['\0']
    {
      q := q + 1;
    }

    /** A deleted character: the pointer steps back and forth. */
    method Drop()
      requires Valid()
      modifies this
      ensures Valid() && Written() == old(Written())
    {
      q := q - 1;
      q := q + 1;
    }

    /** strdup(tmp): the text up to the first zero. */
    method Dup() returns (s: string)
      requires Valid()
      ensures s == CStr(Written())
    {
      ghost var written, zeros := Written(), tmp[q..];
      assert tmp[..] == written + zeros;
      s := CStr(tmp[..]);
      assert zeros[0] == '\0';
      if '\0' in written {
        CStrHidden(written, zeros);
      } else {
        CStrPrefix(written, zeros);
        CStrIdentity(written);
        assert written + [] == written;
      }
    }
  }
}
