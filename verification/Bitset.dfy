/** The set of bits of os-std/bitset.hh: an array of 32-bit words. */
module Bitset {
  import opened Basics
  import opened Bits

  /** Bit j of a list of words. */
  predicate BitAt(words: seq<Word>, j: nat)
    requires j < WORD_BITS * |words|
  {
    words[j / WORD_BITS][j % WORD_BITS]
  }

  /** Exactly the bits i .. i + count have the value v; all others are as before. */
  ghost predicate RangeSet(before: seq<Word>, after: seq<Word>, i: nat, count: nat, v: bool) {
    && |after| == |before|
    && forall j: nat :: j < WORD_BITS * |before| ==> BitAt(after, j) == if i <= j < i + count then v else BitAt(before, j)
  }

  class Bitset {
    const data: array<Word>

    /** All bits, in order. */
    ghost function Words(): seq<Word>
      reads data
    {
      data[..]
    }

    function Size(): nat { WORD_BITS * data.Length }

    constructor (words: nat)
      ensures data.Length == words && fresh(data)
      ensures forall j: nat :: j < Size() ==> !BitAt(Words(), j)
    {
      data := new Word[words](_ => Zero());
    }

    /** `get` */
    method Get(i: nat) returns (v: bool)
      requires i < Size()
      ensures v == BitAt(Words(), i)
    {
      v := BitGet(data[i / WORD_BITS], i % WORD_BITS);
    }

    /** `set` */
    method Set(i: nat, v: bool)
      requires i < Size()
      modifies data
      ensures RangeSet(old(Words()), Words(), i, 1, v)
    {
      data[i / WORD_BITS] := BitSet(data[i / WORD_BITS], i % WORD_BITS, v);
    }

    /** One word of `set_range`: `count` bits from bit `off` of word d. */
    method SetInWord(d: nat, off: nat, count: nat, v: bool)
      requires d < data.Length && 0 < count && off + count <= WORD_BITS
      modifies data
      ensures RangeSet(old(Words()), Words(), WORD_BITS * d + off, count, v)
    {
      data[d] := BitSetRange(data[d], off, count, v);
    }

    /** `set_range` */
    method SetRange(i: nat, count: nat, v: bool)
      requires i + count <= Size()
      modifies data
      ensures RangeSet(old(Words()), Words(), i, count, v)
    {
      if count == 0 { return; }
      var d, off := i / WORD_BITS, i % WORD_BITS;
      var first := Min(count, WORD_BITS - off);
      SetInWord(d, off, first, v);
      var rest := count - first;
      d := d + 1;
      while rest > 0
        invariant 0 <= rest <= count && (rest > 0 ==> i + (count - rest) == WORD_BITS * d)
        invariant RangeSet(old(Words()), Words(), i, count - rest, v)
      {
        var n := Min(rest, WORD_BITS);
        ghost var done := count - rest;
        ghost var before := Words();
        SetInWord(d, 0, n, v);
        RangesJoin(old(Words()), before, Words(), i, done, n, v);
        rest := rest - n;
        d := d + 1;
      }
    }
  }

  lemma RangesJoin(a: seq<Word>, b: seq<Word>, c: seq<Word>, i: nat, n: nat, m: nat, v: bool)
    requires RangeSet(a, b, i, n, v) && RangeSet(b, c, i + n, m, v)
    ensures RangeSet(a, c, i, n + m, v)
  {}
}
