/** Lists of numbers (threads, blocks, handles) without repetition, and optional values. */
module Lists {
  datatype Option<+T> = None | Some(value: T)

  ghost predicate Differ(s: seq<int>, i: int, j: int)
    requires 0 <= i < |s| && 0 <= j < |s|
  {
    s[i] != s[j]
  }

  ghost predicate Distinct(s: seq<int>) {
    forall i, j :: 0 <= i < j < |s| ==> Differ(s, i, j)
  }

  lemma DistinctAppend(s: seq<int>, x: int)
    requires Distinct(s) && x !in s
    ensures Distinct(s + [x]) && Distinct([x] + s)
  {
    forall i, j | 0 <= i < j < |s| + 1 ensures Differ(s + [x], i, j) && Differ([x] + s, i, j) {
      if j < |s| { assert Differ(s, i, j); }
      if 0 < i { assert Differ(s, i - 1, j - 1); }
    }
  }

  lemma DistinctTail(s: seq<int>)
    requires Distinct(s) && s != []
    ensures Distinct(s[1..]) && s[0] !in s[1..]
  {
    forall i, j | 0 <= i < j < |s| - 1 ensures Differ(s[1..], i, j) { assert Differ(s, i + 1, j + 1); }
    forall j | 0 <= j < |s| - 1 ensures s[1..][j] != s[0] { assert Differ(s, 0, j + 1); }
  }

  /** The list without the element x. */
  function Without(s: seq<int>, x: int): (r: seq<int>)
    ensures forall y :: y in r <==> y in s && y != x
    ensures |r| <= |s|
  {
    if s == [] then []
    else if s[0] == x then Without(s[1..], x)
    else [s[0]] + Without(s[1..], x)
  }

  lemma {:induction false} WithoutDistinct(s: seq<int>, x: int)
    requires Distinct(s)
    ensures Distinct(Without(s, x))
    ensures x !in s ==> Without(s, x) == s
  {
    if s != [] {
      DistinctTail(s);
      WithoutDistinct(s[1..], x);
      if s[0] != x { DistinctAppend(Without(s[1..], x), s[0]); }
    }
  }

  /** The position of the first x in the list, or its length. */
  function Position(s: seq<int>, x: int): (p: nat)
    ensures p <= |s| && (p < |s| <==> x in s)
    ensures p < |s| ==> s[p] == x
  {
    if s == [] || s[0] == x then 0 else 1 + Position(s[1..], x)
  }

  lemma {:induction false} PositionAppend(s: seq<int>, t: seq<int>, x: int)
    requires x in s
    ensures Position(s + t, x) == Position(s, x)
  {
    if s[0] != x {
      assert (s + t)[1..] == s[1..] + t;
      PositionAppend(s[1..], t, x);
    }
  }

  lemma {:induction false} PositionWithout(s: seq<int>, x: int, y: int)
    requires x in s && x != y
    ensures Position(Without(s, y), x) <= Position(s, x)
  {
    if s[0] != x {
      PositionWithout(s[1..], x, y);
      if s[0] != y { assert ([s[0]] + Without(s[1..], y))[1..] == Without(s[1..], y); }
    }
  }

  lemma PositionFront(s: seq<int>, x: int, y: int)
    requires x != y
    ensures Position([y] + s, x) == 1 + Position(s, x)
  {
    assert ([y] + s)[1..] == s;
  }

  lemma {:induction false} WithoutAt(s: seq<int>, k: nat)
    requires Distinct(s) && k < |s|
    ensures Without(s, s[k]) == s[..k] + s[k + 1..]
    decreases k
  {
    DistinctTail(s);
    if k == 0 {
      WithoutDistinct(s[1..], s[0]);
    } else {
      assert Differ(s, 0, k);
      WithoutAt(s[1..], k - 1);
      assert s[1..][..k - 1] == s[1..k] && s[1..][k..] == s[k + 1..];
      assert s[..k] == [s[0]] + s[1..k];
    }
  }
}
