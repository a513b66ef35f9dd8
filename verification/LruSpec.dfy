/** Least-recently-used replacement, as the lists of block numbers from the most to the least recently used. */
module LruSpec {
  import opened Lists

  type Block = seq<int>

  /** What the device holds, by block number; a block that is not there cannot be read. */
  type Device = map<int, Block>

  /** The block number of an entry that holds no block. */
  const INVALID := 0xffff_ffff

  /** The list after a lookup: the block moves to the front, or takes the place of the last one. */
  function Touch(dev: Device, order: seq<int>, lba: int): seq<int>
    requires order != []
  {
    if lba in order then [lba] + Without(order, lba)
    else [if lba in dev then lba else INVALID] + order[..|order| - 1]
  }

  /** The list after a run of lookups, from an empty cache of n entries. */
  function Run(dev: Device, n: nat, lookups: seq<int>): (order: seq<int>)
    requires 0 < n
    ensures |order| > 0
  {
    if lookups == [] then seq(n, _ => INVALID)
    else Touch(dev, Run(dev, n, lookups[..|lookups| - 1]), lookups[|lookups| - 1])
  }

  /** The distinct blocks of a run of lookups, most recent first; each failed lookup stands as one invalid block. */
  function Recent(dev: Device, lookups: seq<int>): seq<int> {
    if lookups == [] then []
    else
      var before := Recent(dev, lookups[..|lookups| - 1]);
      var lba := lookups[|lookups| - 1];
      if lba in dev then [lba] + Without(before, lba) else [INVALID] + before
  }

  /** The first n elements of a list, filled up with invalid ones. */
  function Window(s: seq<int>, n: nat): (r: seq<int>)
    ensures |r| == n
  {
    if n <= |s| then s[..n] else s + seq(n - |s|, _ => INVALID)
  }

  ghost predicate Apart(s: seq<int>, i: int, j: int)
    requires 0 <= i < |s| && 0 <= j < |s|
  {
    s[i] != s[j] || s[i] == INVALID
  }

  /** Every block appears at most once. */
  ghost predicate Once(s: seq<int>) { forall i, j :: 0 <= i < j < |s| ==> Apart(s, i, j) }

  lemma {:induction false} RecentOnce(dev: Device, lookups: seq<int>)
    requires INVALID !in dev
    ensures Once(Recent(dev, lookups))
    ensures forall x :: x in Recent(dev, lookups) && x != INVALID ==> x in dev && x in lookups
    ensures forall x :: x in lookups && x in dev ==> x in Recent(dev, lookups)
  {
    if lookups != [] {
      var init := lookups[..|lookups| - 1];
      var lba := lookups[|lookups| - 1];
      var before := Recent(dev, init);
      RecentOnce(dev, init);
      assert lookups == init + [lba];
      var r := Recent(dev, lookups);
      if lba in dev {
        WithoutOnceKeeps(before, lba);
        forall i, j | 0 <= i < j < |r| ensures Apart(r, i, j) {
          if 0 < i { assert Apart(Without(before, lba), i - 1, j - 1); }
        }
      } else {
        forall i, j | 0 <= i < j < |r| ensures Apart(r, i, j) {
          if 0 < i { assert Apart(before, i - 1, j - 1); }
        }
      }
    }
  }

  lemma {:induction false} WithoutOnceKeeps(s: seq<int>, x: int)
    requires Once(s)
    ensures Once(Without(s, x))
  {
    if s != [] {
      OnceTail(s);
      WithoutOnceKeeps(s[1..], x);
      if s[0] != x {
        var r := Without(s, x);
        forall i, j | 0 <= i < j < |r| ensures Apart(r, i, j) {
          if 0 < i {
            assert Apart(r[1..], i - 1, j - 1);
          } else if s[0] != INVALID {
            assert r[j] == r[1..][j - 1] && r[j] in Without(s[1..], x);
            var y := r[j];
            assert y in s[1..];
          }
        }
      }
    }
  }

  lemma OnceTail(s: seq<int>)
    requires Once(s) && s != []
    ensures Once(s[1..]) && (s[0] != INVALID ==> s[0] !in s[1..])
  {
    forall i, j | 0 <= i < j < |s| - 1 ensures Apart(s[1..], i, j) {
      assert Apart(s, i + 1, j + 1);
    }
    if s[0] != INVALID {
      forall j | 0 <= j < |s| - 1 ensures s[1..][j] != s[0] { assert Apart(s, 0, j + 1); }
    }
  }

  /** Removing the one occurrence of an element. */
  lemma {:induction false} WithoutSingle(s: seq<int>, k: nat)
    requires k < |s| && forall j :: 0 <= j < |s| && j != k ==> s[j] != s[k]
    ensures Without(s, s[k]) == s[..k] + s[k + 1..]
    decreases k
  {
    if k == 0 {
      WithoutAbsent(s[1..], s[0]);
    } else {
      assert s[0] != s[k];
      WithoutSingle(s[1..], k - 1);
      assert s[1..][..k - 1] == s[1..k] && s[1..][k..] == s[k + 1..];
      assert s[..k] == [s[0]] + s[1..k];
    }
  }

  lemma {:induction false} WithoutAbsent(s: seq<int>, x: int)
    requires x !in s
    ensures Without(s, x) == s
  {
    if s != [] { WithoutAbsent(s[1..], x); }
  }

  lemma OnceSingle(s: seq<int>, k: nat)
    requires Once(s) && k < |s| && s[k] != INVALID
    ensures forall j :: 0 <= j < |s| && j != k ==> s[j] != s[k]
  {
    forall j | 0 <= j < |s| && j != k ensures s[j] != s[k] {
      assert Apart(s, if j < k then j else k, if j < k then k else j);
    }
  }

  /** A block inside the window moves to its front. */
  lemma WindowHit(recent: seq<int>, n: nat, k: nat)
    requires Once(recent) && k < |recent| && k < n && recent[k] != INVALID
    ensures [recent[k]] + Without(Window(recent, n), recent[k]) == Window([recent[k]] + Without(recent, recent[k]), n)
  {
    OnceSingle(recent, k);
    WithoutSingle(recent, k);
    var w := Window(recent, n);
    forall j | 0 <= j < n && j != k ensures w[j] != w[k] {}
    WithoutSingle(w, k);
    var r := [recent[k]] + (recent[..k] + recent[k + 1..]);
    var v := [w[k]] + (w[..k] + w[k + 1..]);
    assert |r| == |recent|;
    forall j | 0 <= j < n ensures v[j] == Window(r, n)[j] {}
    assert v == Window(r, n);
  }

  /** A block outside the window pushes out the last one. */
  lemma WindowMiss(recent: seq<int>, n: nat, lba: int)
    requires Once(recent) && 0 < n && lba != INVALID && lba !in Window(recent, n)
    ensures [lba] + Window(recent, n)[..n - 1] == Window([lba] + Without(recent, lba), n)
  {
    if lba in recent {
      forall j | 0 <= j < |recent| && j < n ensures recent[j] != lba { assert Window(recent, n)[j] == recent[j]; }
      var k :| 0 <= k < |recent| && recent[k] == lba;
      OnceSingle(recent, k);
      WithoutSingle(recent, k);
    } else {
      WithoutAbsent(recent, lba);
    }
  }

  /** One lookup moves the window over the recently used blocks. */
  lemma WindowTouch(dev: Device, recent: seq<int>, n: nat, lba: int)
    requires Once(recent) && 0 < n && lba != INVALID && (lba in recent ==> lba in dev)
    ensures Touch(dev, Window(recent, n), lba)
         == Window(if lba in dev then [lba] + Without(recent, lba) else [INVALID] + recent, n)
  {
    var w := Window(recent, n);
    if lba in w {
      var k :| 0 <= k < |w| && w[k] == lba;
      assert recent[k] == lba;
      WindowHit(recent, n, k);
    } else if lba in dev {
      WindowMiss(recent, n, lba);
    } else {
      assert [INVALID] + w[..n - 1] == Window([INVALID] + recent, n);
    }
  }

  /**
    The cache is true LRU over every run of lookups: its entries, from the most
    to the least recently used, are the n most recently requested distinct
    blocks, with the failed lookups in their places.
   */
  lemma {:induction false} TrueLru(dev: Device, n: nat, lookups: seq<int>)
    requires 0 < n && INVALID !in dev && INVALID !in lookups
    ensures Run(dev, n, lookups) == Window(Recent(dev, lookups), n)
    ensures Once(Run(dev, n, lookups))
  {
    RecentOnce(dev, lookups);
    if lookups != [] {
      var init := lookups[..|lookups| - 1];
      var lba := lookups[|lookups| - 1];
      TrueLru(dev, n, init);
      RecentOnce(dev, init);
      WindowTouch(dev, Recent(dev, init), n, lba);
    }
    var r := Recent(dev, lookups);
    var w := Window(r, n);
    forall i, j | 0 <= i < j < |w| ensures Apart(w, i, j) {
      if j < |r| { assert Apart(r, i, j); }
    }
  }
}
