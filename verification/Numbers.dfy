/**
  Printing and parsing of numbers: `format` with default flags (os-std/fmt.hh)
  and `string_to_u64`, `string_to_num` (os-std/string.hh).
 */
module Numbers {
  import Alignment

  const U64 := 0x1_0000_0000_0000_0000
  const S64_MAX := 0x7fff_ffff_ffff_ffff

  predicate IsDigit(c: char) { '0' <= c <= '9' }

  ghost predicate AllDigits(s: string) { forall i :: 0 <= i < |s| ==> IsDigit(s[i]) }

  function DigitOf(d: nat): (c: char)
    requires d < 10
    ensures IsDigit(c) && ValueOf(c) == d
  {
    d as char + '0'
  }

  function ValueOf(c: char): nat
    requires IsDigit(c)
  {
    (c - '0') as nat
  }

  /** The value of a list of digits, the most significant first. */
  function Value(s: string): (v: nat)
    requires AllDigits(s)
  {
    if s == "" then 0 else 10 * Value(s[..|s| - 1]) + ValueOf(s[|s| - 1])
  }

  function Pow10(k: nat): (p: nat)
    ensures 0 < p && (0 < k ==> 10 <= p)
  {
    if k == 0 then 1 else 10 * Pow10(k - 1)
  }

  /** The decimal digits of a number, without leading zeros. */
  function Decimal(n: nat): (s: string)
    ensures s != "" && AllDigits(s)
  {
    if n < 10 then [DigitOf(n)] else Decimal(n / 10) + [DigitOf(n % 10)]
  }

  /** The digits of a number have its value. */
  lemma {:induction false} DecimalValue(n: nat)
    ensures Value(Decimal(n)) == n
  {
    var s := Decimal(n);
    if n < 10 {
      assert s[..0] == "";
    } else {
      DecimalValue(n / 10);
      assert s[..|s| - 1] == Decimal(n / 10);
    }
  }

  /** No leading zero, except for zero itself. */
  lemma {:induction false} DecimalShort(n: nat)
    ensures Decimal(n)[0] == '0' <==> n == 0
  {
    if n >= 10 { DecimalShort(n / 10); }
  }

  lemma DivTwice(n: nat, p: nat)
    requires 0 < p
    ensures n / (10 * p) == n / 10 / p
  {
    var q := n / 10 / p;
    var a, b := n / 10 % p, n % 10;
    assert n / 10 == q * p + a;
    assert n == q * (10 * p) + (10 * a + b);
    Alignment.DivUnique(n, q, 10 * a + b, 10 * p);
  }

  /**
    The character in place k from the end of a printed number is that of the
    k-th digit, with the code 48 + d for the digit d; and there are as many
    characters as the number needs.
   */
  lemma {:induction false} DecimalDigit(n: nat, k: nat)
    ensures var s := Decimal(n);
      && (k < |s| ==> s[|s| - 1 - k] as int == 48 + n / Pow10(k) % 10)
      && (k < |s| <==> k == 0 || Pow10(k) <= n)
    decreases k
  {
    var s := Decimal(n);
    if k == 0 {
      assert Pow10(0) == 1 && n / 1 == n;
    } else if n < 10 {
      assert Pow10(k) >= 10;
    } else {
      DecimalDigit(n / 10, k - 1);
      DivTwice(n, Pow10(k - 1));
      assert Pow10(k - 1) <= n / 10 <==> Pow10(k) <= n;
      if k == 1 { assert Pow10(1) == 10; }
    }
  }

  // ---------------------------------------------------------------------
  // Parsing
  // ---------------------------------------------------------------------

  lemma ValueSnoc(s: string, i: nat)
    requires i < |s| && AllDigits(s[..i + 1])
    ensures AllDigits(s[..i]) && IsDigit(s[i]) && Value(s[..i + 1]) == 10 * Value(s[..i]) + ValueOf(s[i])
  {
    assert s[..i + 1][i] == s[i] && s[..i + 1][..i] == s[..i];
    forall k | 0 <= k < i ensures IsDigit(s[..i][k]) { assert s[..i + 1][k] == s[..i][k]; }
  }

  /** A longer list of digits is worth at least as much. */
  lemma {:induction false} ValueGrows(s: string, i: nat)
    requires AllDigits(s) && i <= |s|
    ensures AllDigits(s[..i]) && Value(s[..i]) <= Value(s)
    decreases |s| - i
  {
    if i == |s| {
      assert s[..i] == s;
    } else {
      ValueGrows(s, i + 1);
      ValueSnoc(s, i);
    }
  }

  /** What a parse should give: the value, for a list of digits whose value fits. */
  ghost predicate Parses(s: string, v: nat) { s != "" && AllDigits(s) && v == Value(s) && v < U64 }

  /** `string_to_u64`: accepts exactly the lists of digits whose value fits in 64 bits. */
  method StringToU64(s: string) returns (ok: bool, v: nat)
    ensures ok <==> s != "" && AllDigits(s) && Value(s) < U64
    ensures v == if ok then Value(s) else 0
  {
    v := 0;
    if |s| == 0 { return false, 0; }
    var x := 0;
    var i := 0;
    while i < |s|
      invariant 0 <= i <= |s| && AllDigits(s[..i]) && x == Value(s[..i]) < U64
    {
      if !IsDigit(s[i]) { return false, 0; }
      assert AllDigits(s[..i + 1]);
      ValueSnoc(s, i);
      if AllDigits(s) { ValueGrows(s, i + 1); }
      if x * 10 >= U64 { return false, 0; }
      x := x * 10;
      if x + ValueOf(s[i]) >= U64 { return false, 0; }
      x := x + ValueOf(s[i]);
      i := i + 1;
    }
    assert s[..i] == s;
    return true, x;
  }

  // ---------------------------------------------------------------------
  // Printing
  // ---------------------------------------------------------------------

  function Reversed(s: string): (r: string)
    ensures |r| == |s| && forall i :: 0 <= i < |s| ==> r[i] == s[|s| - 1 - i]
  {
    if s == "" then "" else Reversed(s[1..]) + [s[0]]
  }

  lemma {:induction false} DecimalLength(n: nat, k: nat)
    requires 0 < k && n < Pow10(k)
    ensures |Decimal(n)| <= k
    decreases k
  {
    if n >= 10 { DecimalLength(n / 10, k - 1); }
  }

  /** The loop of `format` over the digits, the least significant first. The buffer has room for 64 bits in any base. */
  method FillDigits(buf: array<char>, n0: nat) returns (i: nat)
    requires buf.Length == 131 && n0 < U64
    modifies buf
    ensures i <= buf.Length && Reversed(buf[..i]) == Decimal(n0)
  {
    assert Pow10(4) == 10000;
    assert Pow10(8) == 1_0000_0000;
    assert Pow10(12) == 1_0000_0000_0000;
    assert Pow10(16) == 1_0000_0000_0000_0000;
    assert Pow10(20) == 1_0000_0000_0000_0000_0000;
    DecimalLength(n0, 20);
    if n0 == 0 {
      buf[0] := '0';
      assert buf[..1] == "0" && Reversed("0") == "0";
      return 1;
    }
    i := 0;
    var n := n0;
    while n != 0
      invariant 0 <= n <= n0 && 0 <= i <= 20
      invariant Left(n) + Reversed(buf[..i]) == Decimal(n0)
    {
      DigitStep(n, buf[..i]);
      assert |Left(n)| + i <= 20 && 0 < |Left(n)|;
      buf[i] := DigitOf(n % 10);
      assert buf[..i + 1] == buf[..i] + [DigitOf(n % 10)];
      n := n / 10;
      i := i + 1;
    }
    assert "" + Reversed(buf[..i]) == Reversed(buf[..i]);
  }

  /** The digits that are still to be filled in. */
  function Left(n: nat): string { if n == 0 then "" else Decimal(n) }

  /** The last loop of `format`: the buffer is printed from its end. */
  method EmitReversed(buf: array<char>, i0: nat, prefix: string) returns (out: string)
    requires i0 <= buf.Length
    ensures out == prefix + Reversed(buf[..i0])
  {
    out := prefix;
    ghost var r := Reversed(buf[..i0]);
    var i := i0;
    while i > 0
      invariant 0 <= i <= i0 && out == prefix + r[..i0 - i]
    {
      i := i - 1;
      assert r[..i0 - i] == r[..i0 - i - 1] + [buf[i]];
      out := out + [buf[i]];
    }
    assert r[..i0] == r;
  }

  /** `format` of an unsigned number with default flags: what is printed, and the count that is returned. */
  method FormatU64(n: nat, sign: bool) returns (out: string, count: int)
    requires n < U64
    ensures out == (if sign then "-" else "") + Decimal(n) && count == |out|
  {
    var buf := new char[131];
    var i := FillDigits(buf, n);
    count := i + if sign then 1 else 0;
    out := EmitReversed(buf, i, if sign then "-" else "");
  }

  lemma ReversedSnoc(s: string, c: char)
    ensures Reversed(s + [c]) == [c] + Reversed(s)
  {
    var r := s + [c];
    forall i | 0 <= i < |r| ensures Reversed(r)[i] == ([c] + Reversed(s))[i] {}
  }

  lemma DigitStep(n: nat, filled: string)
    requires n != 0
    ensures Left(n) + Reversed(filled) == Left(n / 10) + Reversed(filled + [DigitOf(n % 10)])
  {
    var d := DigitOf(n % 10);
    ReversedSnoc(filled, d);
    assert Left(n) == Left(n / 10) + [d];
    assert (Left(n / 10) + [d]) + Reversed(filled) == Left(n / 10) + ([d] + Reversed(filled));
  }

  /** `format` of a signed number. */
  method FormatS64(n: int) returns (out: string, count: int)
    requires -S64_MAX <= n <= S64_MAX
    ensures out == (if n < 0 then "-" + Decimal(-n) else Decimal(n)) && count == |out|
  {
    if n >= 0 {
      out, count := FormatU64(n, false);
      assert "" + Decimal(n) == Decimal(n);
    } else {
      out, count := FormatU64(-n, true);
    }
  }

  /** The signed number that a string stands for, after `string_to_num`. */
  ghost predicate IsSigned(s: string, v: int) {
    s != "" &&
    var digits := if s[0] == '+' || s[0] == '-' then s[1..] else s;
    digits != "" && AllDigits(digits) && Value(digits) <= S64_MAX && v == if s[0] == '-' then 0 - Value(digits) else Value(digits)
  }

  /** `string_to_num` for a signed 64-bit number. */
  method StringToS64(s: string) returns (ok: bool, v: int)
    ensures ok ==> IsSigned(s, v)
    ensures !ok ==> v == 0 && forall w :: !IsSigned(s, w)
  {
    v := 0;
    if |s| == 0 { return false, 0; }
    var sign, rest := 1, s;
    if s[0] == '+' { rest := s[1..]; } else if s[0] == '-' { rest, sign := s[1..], -1; }
    var x;
    ok, x := StringToU64(rest);
    if !ok { return false, 0; }
    if x > S64_MAX { return false, 0; }
    v := sign * x;
  }

  /** Printing an unsigned number and parsing it gives the number back, and no other one. */
  lemma {:induction false} UnsignedRoundTrip(n: nat, v: nat)
    requires n < U64
    ensures Parses(Decimal(n), v) <==> v == n
  {
    DecimalValue(n);
  }

  /** What was parsed is printed as it was read, exactly when it had no leading zero. */
  lemma ParsedPrints(s: string, v: nat)
    requires Parses(s, v)
    ensures Decimal(v) == s <==> s[0] != '0' || |s| == 1
  {
    if s[0] != '0' || |s| == 1 {
      ValuePrints(s);
    } else {
      DecimalShort(v);
    }
  }

  /** Digits without a leading zero are the digits that are printed for their value. */
  lemma {:induction false} ValuePrints(s: string)
    requires s != "" && AllDigits(s) && (s[0] != '0' || |s| == 1)
    ensures Decimal(Value(s)) == s
    ensures s[0] != '0' ==> 0 < Value(s)
    decreases |s|
  {
    var front, last := s[..|s| - 1], s[|s| - 1];
    assert IsDigit(last);
    if |s| == 1 {
      assert front == "";
    } else {
      assert front[0] == s[0];
      ValuePrints(front);
      assert Value(s) / 10 == Value(front) && Value(s) % 10 == ValueOf(last);
    }
  }

  /** Printing a signed number and parsing it gives the number back, and no other one. */
  lemma SignedRoundTrip(n: int, v: int)
    requires -S64_MAX <= n <= S64_MAX
    ensures IsSigned(if n < 0 then "-" + Decimal(-n) else Decimal(n), v) <==> v == n
  {
    var d := Decimal(if n < 0 then -n else n);
    DecimalValue(if n < 0 then -n else n);
    if n < 0 { assert ("-" + d)[1..] == d; } else { assert IsDigit(d[0]); }
  }
}
