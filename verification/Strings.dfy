/** The fixed-capacity string of os-std/string.hh, with its terminating NUL. */
module Strings {
  const NUL := '\0'

  /** The characters before the first NUL. */
  function UntilNul(s: string): (r: string)
    ensures r <= s && NUL !in r
    ensures |r| < |s| ==> s[|r|] == NUL
  {
    if s == "" || s[0] == NUL then "" else [s[0]] + UntilNul(s[1..])
  }

  /** The first n characters. */
  function Take(s: string, n: nat): (r: string)
    ensures r <= s && |r| == if |s| < n then |s| else n
  {
    if |s| <= n then s else s[..n]
  }

  lemma {:induction false} UntilNulAll(s: string)
    requires NUL !in s
    ensures UntilNul(s) == s
  {
    if s != "" { UntilNulAll(s[1..]); }
  }

  class Str {
    const data: array<char>
    var length: nat

    ghost predicate Valid()
      reads this, data
    {
      length < data.Length && data[length] == NUL
    }

    /** The capacity. */
    function Size(): int { data.Length - 1 }

    function Contents(): string
      requires Valid()
      reads this, data
    {
      data[..length]
    }

    /** `operator[]` */
    function At(i: nat): (c: char)
      requires Valid() && i < length
      reads this, data
      ensures c == Contents()[i]
    {
      data[i]
    }

    constructor (capacity: nat)
      ensures Valid() && fresh(data) && Size() == capacity && Contents() == ""
    {
      data := new char[capacity + 1](_ => NUL);
      length := 0;
    }

    /** `clear` */
    method Clear()
      requires Valid()
      modifies this, data
      ensures Valid() && Contents() == ""
    {
      length := 0;
      data[0] := NUL;
    }

    /** `operator+=` of a character, which is dropped when the string is full. */
    method Push(c: char)
      requires Valid()
      modifies this, data
      ensures Valid() && Contents() == Take(old(Contents()) + [c], Size())
    {
      if length < Size() {
        data[length] := c;
        length := length + 1;
        data[length] := NUL;
        assert Contents() == old(Contents()) + [c];
      }
    }

    /** `operator+=` of a NUL-terminated string; what does not fit is dropped. */
    method Append(o: string)
      requires Valid()
      modifies this, data
      ensures Valid() && Contents() == Take(old(Contents()) + UntilNul(o), Size())
    {
      ghost var was, all := Contents(), UntilNul(o);
      var i := 0;
      while i < |o| && o[i] != NUL && length < Size()
        invariant length < data.Length && 0 <= i <= |all|
        invariant data[..length] == was + all[..i]
      {
        data[length] := o[i];
        assert i < |all| && all[i] == o[i];
        length := length + 1;
        i := i + 1;
      }
      data[length] := NUL;
      assert Contents() == was + all[..i];
    }

    /** `pop` of n characters at the end. */
    method Pop(n: nat)
      requires Valid()
      modifies this, data
      ensures Valid() && Contents() == if n >= |old(Contents())| then "" else old(Contents())[..|old(Contents())| - n]
    {
      if n >= length {
        Clear();
      } else {
        length := length - n;
        data[length] := NUL;
      }
    }
  }
}
