/**
  The block caches of src/kernel/src/filesystem/fat32.cc: a table of entries
  stamped with the time of their last use. The ghost field `rank` lists the
  slots from the most to the least recently used.
 */
module BlockCache {
  import opened Lists
  import opened LruSpec

  datatype Entry = Entry(lba: int, hit: nat, data: Block)

  const U32_MAX := 0xffff_ffff

  /** Slot s was used after slot t; among slots never used, the later one counts as newer. */
  ghost predicate Newer(e: seq<Entry>, s: int, t: int)
    requires 0 <= s < |e| && 0 <= t < |e|
  {
    e[s].hit > e[t].hit || (e[s].hit == e[t].hit && s > t)
  }

  ghost predicate RankedAt(e: seq<Entry>, rank: seq<int>, i: int, j: int)
    requires 0 <= i < |rank| && 0 <= j < |rank|
  {
    0 <= rank[i] < |e| && 0 <= rank[j] < |e| && Newer(e, rank[i], rank[j])
  }

  /** All slots, from the newest to the oldest. */
  ghost predicate Ranked(e: seq<Entry>, rank: seq<int>) {
    && |rank| == |e| && Distinct(rank)
    && (forall i :: 0 <= i < |rank| ==> 0 <= rank[i] < |e|)
    && (forall s :: 0 <= s < |e| ==> s in rank)
    && (forall i, j :: 0 <= i < j < |rank| ==> RankedAt(e, rank, i, j))
  }

  ghost predicate SameBlock(e: seq<Entry>, s: int, t: int)
    requires 0 <= s < |e| && 0 <= t < |e|
  {
    e[s].lba == e[t].lba && e[s].lba != INVALID
  }

  ghost predicate Coherent(e: seq<Entry>, dev: Device) {
    && (forall s :: 0 <= s < |e| && e[s].lba != INVALID ==> e[s].lba in dev && e[s].data == dev[e[s].lba])
    && (forall s, t :: 0 <= s < t < |e| ==> !SameBlock(e, s, t))
  }

  /** The blocks of the slots, in the order of the slots. */
  ghost function Blocks(e: seq<Entry>, rank: seq<int>): (r: seq<int>)
    requires |rank| == |e| && forall i :: 0 <= i < |rank| ==> 0 <= rank[i] < |e|
    ensures |r| == |e|
  {
    seq(|rank|, i requires 0 <= i < |rank| => e[rank[i]].lba)
  }

  /** The ranks with place p moved to the front. */
  function Promoted(rank: seq<int>, p: nat): (r: seq<int>)
    requires p < |rank|
    ensures |r| == |rank|
    ensures forall i :: 0 <= i < |r| ==> r[i] == rank[Origin(i, p)]
  {
    [rank[p]] + rank[..p] + rank[p + 1..]
  }

  /** Where place i of the promoted ranks comes from. */
  function Origin(i: nat, p: nat): nat { if i == 0 then p else if i <= p then i - 1 else i }

  lemma PromotedDistinct(rank: seq<int>, p: nat)
    requires p < |rank| && Distinct(rank)
    ensures Distinct(Promoted(rank, p))
    ensures forall i :: 0 < i < |rank| ==> rank[Origin(i, p)] != rank[p]
    ensures forall x :: x in rank ==> x in Promoted(rank, p)
  {
    var r := Promoted(rank, p);
    forall i, j | 0 <= i < j < |r| ensures Differ(r, i, j) {
      var i', j' := Origin(i, p), Origin(j, p);
      assert Differ(rank, if i' < j' then i' else j', if i' < j' then j' else i');
    }
    forall i | 0 < i < |rank| ensures rank[Origin(i, p)] != rank[p] {
      assert Differ(r, 0, i);
    }
    forall x | x in rank ensures x in r {
      var i := Position(rank, x);
      assert r[if i == p then 0 else if i < p then i + 1 else i] == x;
    }
  }

  /** The slot that was used last comes to the front of the ranks. */
  lemma Promote(e: seq<Entry>, rank: seq<int>, p: nat, f: Entry)
    requires Ranked(e, rank) && p < |rank|
    requires forall s :: 0 <= s < |e| ==> e[s].hit < f.hit
    ensures Ranked(e[rank[p] := f], Promoted(rank, p))
  {
    var e', r := e[rank[p] := f], Promoted(rank, p);
    PromotedDistinct(rank, p);
    forall i, j | 0 <= i < j < |r| ensures RankedAt(e', r, i, j) {
      if i != 0 { assert RankedAt(e, rank, Origin(i, p), Origin(j, p)); }
    }
    forall i | 0 <= i < |r| ensures 0 <= r[i] < |e'| {}
  }

  /** The block of that slot comes to the front of the blocks. */
  lemma PromoteBlocks(e: seq<Entry>, rank: seq<int>, p: nat, f: Entry)
    requires Ranked(e, rank) && p < |rank| && Ranked(e[rank[p] := f], Promoted(rank, p))
    ensures Blocks(e[rank[p] := f], Promoted(rank, p))
         == [f.lba] + (Blocks(e, rank)[..p] + Blocks(e, rank)[p + 1..])
  {
    PromotedDistinct(rank, p);
    var b, was := Blocks(e[rank[p] := f], Promoted(rank, p)), Blocks(e, rank);
    forall i | 0 < i < |rank| ensures b[i] == was[Origin(i, p)] {}
    assert b[0] == f.lba;
  }

  /** No two slots hold the same block. */
  lemma BlocksOnce(e: seq<Entry>, rank: seq<int>, dev: Device)
    requires Ranked(e, rank) && Coherent(e, dev)
    ensures Once(Blocks(e, rank))
  {
    var b := Blocks(e, rank);
    forall i, j | 0 <= i < j < |b| ensures Apart(b, i, j) {
      assert Differ(rank, i, j);
      var s, t := rank[i], rank[j];
      assert !SameBlock(e, if s < t then s else t, if s < t then t else s);
    }
  }

  class Cache {
    const entries: array<Entry>
    var lastHit: nat
    const dev: Device
    ghost var rank: seq<int>
    /** The time stamps have not wrapped around yet. */
    ghost var exact: bool

    ghost predicate Valid()
      reads this, entries
    {
      && entries.Length > 0 && INVALID !in dev && lastHit <= U32_MAX
      && Coherent(entries[..], dev)
      && (exact ==> Ranked(entries[..], rank) && forall s :: 0 <= s < entries.Length ==> entries[s].hit <= lastHit)
    }

    /** The blocks in the cache, from the most to the least recently used. */
    ghost function Order(): (r: seq<int>)
      requires Valid() && exact
      reads this, entries
      ensures |r| == entries.Length
    {
      Blocks(entries[..], rank)
    }

    constructor (size: nat, dev: Device)
      requires 0 < size && INVALID !in dev
      ensures Valid() && fresh(entries) && entries.Length == size && this.dev == dev && lastHit == 0
      ensures exact && Order() == Run(dev, size, [])
    {
      this.dev := dev;
      lastHit := 0;
      entries := new Entry[size](_ => Entry(INVALID, 0, []));
      rank := seq(size, i => size - 1 - i);
      exact := true;
      new;
      var e := entries[..];
      forall i, j | 0 <= i < j < |rank| ensures Differ(rank, i, j) && RankedAt(e, rank, i, j) {}
      forall s | 0 <= s < |e| ensures s in rank { assert rank[size - 1 - s] == s; }
    }

    /**
      `get_cache_entry`: the slot that holds the block, or the least recently
      used one, stamped with a new time. The time is a 32-bit number.
     */
    method GetCacheEntry(lba: int) returns (k: nat)
      requires Valid() && lba != INVALID
      modifies this, entries
      ensures k < entries.Length && lastHit == if old(lastHit) == U32_MAX then 0 else old(lastHit) + 1
      ensures entries[..] == old(entries[..])[k := old(entries[..])[k].(hit := lastHit)]
      ensures rank == old(rank) && exact == old(exact)
      ensures entries[k].lba != lba ==> forall s :: 0 <= s < entries.Length ==> old(entries[..])[s].lba != lba
      ensures entries[k].lba != lba && exact ==> k == rank[|rank| - 1]
    {
      var lru := 0;
      ghost var e := entries[..];
      var i := 0;
      while i < entries.Length
        invariant entries[..] == e && lastHit == old(lastHit) && rank == old(rank) && exact == old(exact)
        invariant 0 <= i <= entries.Length && 0 <= lru < entries.Length && (if i == 0 then lru == 0 else lru < i)
        invariant forall s :: 0 <= s < i ==> s == lru || Newer(e, s, lru)
        invariant forall s :: 0 <= s < i ==> e[s].lba != lba
      {
        ghost var was := lru;
        if entries[i].hit < entries[lru].hit { lru := i; }
        forall s | 0 <= s < i + 1 ensures s == lru || Newer(e, s, lru) {
          assert s < i ==> s == was || Newer(e, s, was);
        }
        if entries[i].lba == lba {
          lastHit := if lastHit == U32_MAX then 0 else lastHit + 1;
          entries[i] := entries[i].(hit := lastHit);
          return i;
        }
        i := i + 1;
      }
      lastHit := if lastHit == U32_MAX then 0 else lastHit + 1;
      entries[lru] := entries[lru].(hit := lastHit);
      if exact { LastIsOldest(e, rank, lru); }
      return lru;
    }

    /** The block is read into the slot, unless it is there already. */
    method Load(k: nat, lba: int) returns (ok: bool)
      requires k < entries.Length && lba != INVALID
      modifies entries
      ensures entries[..] == old(entries[..])[k := entries[k]] && entries[k].hit == old(entries[..])[k].hit
      ensures if old(entries[..])[k].lba == lba then ok && entries[..] == old(entries[..])
              else ok == (lba in dev)
                   && if ok then entries[k].lba == lba && entries[k].data == dev[lba] else entries[k].lba == INVALID
    {
      ok := true;
      if entries[k].lba != lba {
        entries[k] := entries[k].(lba := INVALID);
        ok := lba in dev;
        if ok {
          entries[k] := entries[k].(data := dev[lba]);
          entries[k] := entries[k].(lba := lba);
        }
      }
    }

    /**
      `get_data_block` and `get_fat_block`: the slot with the block. A failed
      read leaves the slot without a block.
     */
    method GetBlock(lba: int) returns (ok: bool, k: nat)
      requires Valid() && lba != INVALID
      modifies this, entries
      ensures Valid() && exact == (old(exact) && old(lastHit) < U32_MAX)
      ensures exact ==> lastHit == old(lastHit) + 1 && Order() == Touch(dev, old(Order()), lba)
      ensures ok == (lba in dev) && k < entries.Length
      ensures ok ==> entries[k].lba == lba && entries[k].data == dev[lba]
    {
      ghost var e := entries[..];
      k := GetCacheEntry(lba);
      ok := Load(k, lba);
      exact := exact && 0 < lastHit;
      Settle(e, k, lba);
    }

    /** The bookkeeping after a lookup: slot k comes to the front of the ranks. */
    ghost method Settle(e: seq<Entry>, k: nat, lba: int)
      requires INVALID !in dev && lba != INVALID && lastHit <= U32_MAX
      requires |e| == entries.Length && k < |e| && entries[..] == e[k := entries[k]] && Coherent(e, dev)
      requires exact ==> Ranked(e, rank) && entries[k].hit == lastHit && forall s :: 0 <= s < |e| ==> e[s].hit < lastHit
      requires if e[k].lba == lba then entries[k] == e[k].(hit := entries[k].hit)
               else (forall s :: 0 <= s < |e| ==> e[s].lba != lba) && (exact ==> k == rank[|rank| - 1])
                    && if lba in dev then entries[k].lba == lba && entries[k].data == dev[lba] else entries[k].lba == INVALID
      modifies this`rank
      ensures Valid() && (exact ==> Order() == Touch(dev, Blocks(e, old(rank)), lba))
    {
      StillCoherent(e, k, entries[k], dev, lba);
      if exact {
        SlotTouched(e, rank, k, entries[k], dev, lba);
        rank := Promoted(rank, Position(rank, k));
      }
    }
  }

  /** Reading a block into a slot keeps the cache coherent, and free of a second copy. */
  lemma StillCoherent(e: seq<Entry>, k: nat, f: Entry, dev: Device, lba: int)
    requires Coherent(e, dev) && k < |e| && lba != INVALID
    requires if e[k].lba == lba then f == e[k].(hit := f.hit)
             else (forall s :: 0 <= s < |e| ==> e[s].lba != lba)
                  && if lba in dev then f.lba == lba && f.data == dev[lba] else f.lba == INVALID
    ensures Coherent(e[k := f], dev)
  {
    var e' := e[k := f];
    forall s, t | 0 <= s < t < |e'| ensures !SameBlock(e', s, t) { assert !SameBlock(e, s, t); }
  }

  /** Stamping a slot that holds the block, or the oldest one when none does, keeps the ranks. */
  lemma Touched(e: seq<Entry>, rank: seq<int>, p: nat, f: Entry, dev: Device, lba: int)
    requires Ranked(e, rank) && Coherent(e, dev) && p < |rank| && lba != INVALID
    requires forall s :: 0 <= s < |e| ==> e[s].hit < f.hit
    requires if e[rank[p]].lba == lba then f == e[rank[p]].(hit := f.hit)
             else (forall s :: 0 <= s < |e| ==> e[s].lba != lba) && p == |rank| - 1
                  && if lba in dev then f.lba == lba && f.data == dev[lba] else f.lba == INVALID
    ensures Ranked(e[rank[p] := f], Promoted(rank, p))
    ensures Blocks(e[rank[p] := f], Promoted(rank, p)) == Touch(dev, Blocks(e, rank), lba)
  {
    Promote(e, rank, p, f);
    PromoteBlocks(e, rank, p, f);
    var b := Blocks(e, rank);
    BlocksOnce(e, rank, dev);
    if e[rank[p]].lba == lba {
      assert b[p] == lba;
      OnceSingle(b, p);
      WithoutSingle(b, p);
    } else {
      assert b[..p] + b[p + 1..] == b[..|b| - 1];
      forall i | 0 <= i < |b| ensures b[i] != lba { assert b[i] == e[rank[i]].lba; }
    }
  }

  lemma SlotTouched(e: seq<Entry>, rank: seq<int>, k: nat, f: Entry, dev: Device, lba: int)
    requires Ranked(e, rank) && Coherent(e, dev) && k < |e| && lba != INVALID
    requires forall s :: 0 <= s < |e| ==> e[s].hit < f.hit
    requires if e[k].lba == lba then f == e[k].(hit := f.hit)
             else (forall s :: 0 <= s < |e| ==> e[s].lba != lba) && k == rank[|rank| - 1]
                  && if lba in dev then f.lba == lba && f.data == dev[lba] else f.lba == INVALID
    ensures Position(rank, k) < |rank| && Ranked(e[k := f], Promoted(rank, Position(rank, k)))
    ensures Blocks(e[k := f], Promoted(rank, Position(rank, k))) == Touch(dev, Blocks(e, rank), lba)
  {
    var p := Position(rank, k);
    assert k in rank;
    assert p < |rank| - 1 ==> Differ(rank, p, |rank| - 1);
    Touched(e, rank, p, f, dev, lba);
  }

  lemma LastIsOldest(e: seq<Entry>, rank: seq<int>, lru: int)
    requires Ranked(e, rank) && 0 <= lru < |e| && forall s :: 0 <= s < |e| ==> s == lru || Newer(e, s, lru)
    ensures rank[|rank| - 1] == lru
  {
    var i := Position(rank, lru);
    var last := rank[|rank| - 1];
    assert last == lru || Newer(e, last, lru);
    assert i < |rank| - 1 ==> RankedAt(e, rank, i, |rank| - 1);
  }
}
