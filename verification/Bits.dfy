/** The bit functions of os-std/math.hh. A 32-bit word is the list of its bits, the least significant first. */
module Bits {
  const WORD_BITS := 32

  type Word = w: seq<bool> | |w| == WORD_BITS
    witness [false, false, false, false, false, false, false, false,
             false, false, false, false, false, false, false, false,
             false, false, false, false, false, false, false, false,
             false, false, false, false, false, false, false, false]

  function Zero(): (r: Word)
    ensures forall i :: 0 <= i < WORD_BITS ==> !r[i]
  {
    seq(WORD_BITS, _ => false)
  }

  function One(): (r: Word)
    ensures forall i :: 0 <= i < WORD_BITS ==> r[i] == (i == 0)
  {
    seq(WORD_BITS, i => i == 0)
  }

  function Ones(): (r: Word)
    ensures forall i :: 0 <= i < WORD_BITS ==> r[i]
  {
    seq(WORD_BITS, _ => true)
  }

  function Or(x: Word, y: Word): (r: Word)
    ensures forall i :: 0 <= i < WORD_BITS ==> r[i] == (x[i] || y[i])
  {
    seq(WORD_BITS, i requires 0 <= i < WORD_BITS => x[i] || y[i])
  }

  function And(x: Word, y: Word): (r: Word)
    ensures forall i :: 0 <= i < WORD_BITS ==> r[i] == (x[i] && y[i])
  {
    seq(WORD_BITS, i requires 0 <= i < WORD_BITS => x[i] && y[i])
  }

  function Not(x: Word): (r: Word)
    ensures forall i :: 0 <= i < WORD_BITS ==> r[i] == !x[i]
  {
    seq(WORD_BITS, i requires 0 <= i < WORD_BITS => !x[i])
  }

  /** x << n */
  function Shl(x: Word, n: nat): (r: Word)
    ensures forall i :: 0 <= i < WORD_BITS ==> r[i] == (i >= n && x[i - n])
  {
    seq(WORD_BITS, i requires 0 <= i < WORD_BITS => i >= n && x[i - n])
  }

  /** x >> n */
  function Shr(x: Word, n: nat): (r: Word)
    ensures forall i :: 0 <= i < WORD_BITS ==> r[i] == (i + n < WORD_BITS && x[i + n])
  {
    seq(WORD_BITS, i requires 0 <= i < WORD_BITS => i + n < WORD_BITS && x[i + n])
  }

  /** `bit_get` */
  predicate BitGet(x: Word, i: nat)
    requires i < WORD_BITS
    ensures BitGet(x, i) == x[i]
  {
    var m := if i == 0 then And(x, One()) else And(x, Shl(One(), i));
    assert m[i] == x[i] && Zero()[i] == false;
    assert !x[i] ==> m == Zero();
    m != Zero()
  }

  /** `bit_set` */
  function BitSet(x: Word, i: nat, v: bool): (r: Word)
    requires i < WORD_BITS
    ensures r == x[i := v]
  {
    if v then Or(x, Shl(One(), i)) else And(x, Not(Shl(One(), i)))
  }

  /** `bit_set_range`: exactly the bits i .. i + count change. */
  function BitSetRange(x: Word, i: nat, count: nat, v: bool): (r: Word)
    requires 0 < count && i + count <= WORD_BITS
    ensures forall j :: 0 <= j < WORD_BITS ==> r[j] == if i <= j < i + count then v else x[j]
  {
    var mask := Shl(Shr(Ones(), WORD_BITS - count), i);
    if v then Or(x, mask) else And(x, Not(mask))
  }

  /** The lowest bit that is set from bit i on. */
  function LowestFrom(x: Word, i: nat): (n: nat)
    requires i <= WORD_BITS
    ensures i <= n <= WORD_BITS && (n < WORD_BITS ==> x[n]) && forall j :: i <= j < n ==> !x[j]
    decreases WORD_BITS - i
  {
    if i == WORD_BITS || x[i] then i else LowestFrom(x, i + 1)
  }

  /** `count_trailing_0s`: the lowest bit that is set, or 32. */
  function CountTrailing0s(x: Word): (n: nat)
    ensures n <= WORD_BITS && (n < WORD_BITS ==> x[n]) && forall j :: 0 <= j < n ==> !x[j]
  {
    LowestFrom(x, 0)
  }

  /** A word is zero exactly when none of its bits is set. */
  lemma ZeroWord(x: Word)
    ensures x == Zero() <==> CountTrailing0s(x) == WORD_BITS
  {
    var n := CountTrailing0s(x);
    if n < WORD_BITS { assert x[n] != Zero()[n]; } else { assert x == Zero(); }
  }
}
