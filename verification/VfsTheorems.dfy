/** The updates of the tables keep them consistent. */
module VfsTheorems {
  import opened Lists
  import opened VfsSpec

  /** Registering a new handle keeps the global table. */
  lemma RegisterHandles(s: State, h: int, r: Handle)
    requires HandlesOk(s) && h !in s.handleOf && Free(s, r.handleI, r.proc, r.procfd)
    ensures HandlesOk(Register(s, h, r))
  {
    var t := Register(s, h, r);
    forall i | 0 <= i < |t.handles| ensures SlotOk(t, i) { assert SlotOk(s, i); }
    forall x | x in t.handleOf ensures InSlot(t, x) { assert x != h ==> InSlot(s, x); }
  }

  lemma RegisterFds(s: State, h: int, r: Handle)
    requires FdsOk(s) && h !in s.handleOf && Free(s, r.handleI, r.proc, r.procfd)
    ensures FdsOk(Register(s, h, r))
  {
    var t := Register(s, h, r);
    forall p, fd | p in t.fds && 0 <= fd < |t.fds[p]| ensures FdOk(t, p, fd) { assert FdOk(s, p, fd); }
    forall x | x in t.handleOf ensures InFd(t, x) { assert x != h ==> InFd(s, x); }
  }

  /** The slots of the handles do not depend on their links. */
  ghost predicate SamePlaces(s: State, t: State) {
    && t.handles == s.handles && t.fds == s.fds && t.handleOf.Keys == s.handleOf.Keys
    && forall h :: h in s.handleOf ==> SamePlace(s, t, h)
  }

  predicate SamePlace(s: State, t: State, h: int) {
    && h in s.handleOf && h in t.handleOf && t.handleOf[h].handleI == s.handleOf[h].handleI
    && t.handleOf[h].proc == s.handleOf[h].proc && t.handleOf[h].procfd == s.handleOf[h].procfd
  }

  lemma PlacesOk(s: State, t: State)
    requires HandlesOk(s) && FdsOk(s) && SamePlaces(s, t)
    ensures HandlesOk(t) && FdsOk(t)
  {
    forall i | 0 <= i < |t.handles| ensures SlotOk(t, i) {
      assert SlotOk(s, i);
      assert s.handles[i].Some? ==> SamePlace(s, t, s.handles[i].value);
    }
    forall p, fd | p in t.fds && 0 <= fd < |t.fds[p]| ensures FdOk(t, p, fd) {
      assert FdOk(s, p, fd);
      assert s.fds[p][fd].Some? ==> SamePlace(s, t, s.fds[p][fd].value);
    }
    forall x | x in t.handleOf ensures InFd(t, x) && InSlot(t, x) { assert InFd(s, x) && InSlot(s, x) && SamePlace(s, t, x); }
  }

  /** The table of open files does not depend on the lists of handles. */
  ghost predicate SameFiles(s: State, t: State) {
    && t.openFiles == s.openFiles && t.fileOf.Keys == s.fileOf.Keys
    && forall f :: f in s.fileOf ==> SameFile(s, t, f)
  }

  predicate SameFile(s: State, t: State, f: int) {
    f in s.fileOf && f in t.fileOf && t.fileOf[f].fileI == s.fileOf[f].fileI && t.fileOf[f].path == s.fileOf[f].path
  }

  lemma FilesKept(s: State, t: State)
    requires FilesOk(s) && SameFiles(s, t)
    ensures FilesOk(t)
  {
    forall i | 0 <= i < |t.openFiles| ensures FileSlotOk(t, i) {
      assert FileSlotOk(s, i);
      assert s.openFiles[i].Some? ==> SameFile(s, t, s.openFiles[i].value);
    }
    forall f | f in t.fileOf ensures InFileSlot(t, f) { assert InFileSlot(s, f) && SameFile(s, t, f); }
    forall f, g | f in t.fileOf && g in t.fileOf && f != g ensures PathsDiffer(t, f, g) {
      assert PathsDiffer(s, f, g) && SameFile(s, t, f) && SameFile(s, t, g);
    }
  }

  /** A list whose handles and file have not changed. */
  lemma ListKept(s: State, t: State, f: int, l: seq<int>)
    requires f in s.fileOf && f in t.fileOf && t.fileOf[f] == s.fileOf[f] && ListOk(s, f, l)
    requires forall h :: h in s.handleOf && s.handleOf[h].file == f ==> SameHandle(s, t, h)
    ensures ListOk(t, f, l)
  {
    forall i | 0 <= i < |l| ensures LinkedAt(t, f, l, i) {
      assert LinkedAt(s, f, l, i);
      var h := l[i];
      assert SameHandle(s, t, h);
    }
  }

  predicate SameHandle(s: State, t: State, h: int) {
    h in s.handleOf && h in t.handleOf && t.handleOf[h] == s.handleOf[h]
  }

  // ---------------------------------------------------------------------
  // Opening and duplicating
  // ---------------------------------------------------------------------

  /** The handle at the end of a list. */
  lemma LastHandle(s: State, lists: map<int, seq<int>>, f: int)
    requires ListsOk(s, lists) && f in s.fileOf
    ensures s.fileOf[f].last.Some? && s.fileOf[f].last.value in s.handleOf
    ensures s.handleOf[s.fileOf[f].last.value].file == f && s.handleOf[s.fileOf[f].last.value].next == None
  {
    var l := lists[f];
    assert LinkedAt(s, f, l, |l| - 1);
  }

  lemma AppendedList(s: State, f: int, l: seq<int>, h: int, r: Handle)
    requires f in s.fileOf && ListOk(s, f, l) && h !in s.handleOf && Free(s, r.handleI, r.proc, r.procfd)
    requires r.file == f && r.next == None
    requires s.fileOf[f].last.value in s.handleOf
    ensures ListOk(Append(s, h, r), f, l + [h])
  {
    var t, l', n := Append(s, h, r), l + [h], |l|;
    assert h !in l by {
      forall i | 0 <= i < n ensures l[i] != h { assert LinkedAt(s, f, l, i); }
    }
    DistinctAppend(l, h);
    forall i | 0 <= i < |l'| ensures LinkedAt(t, f, l', i) {
      if i < n {
        assert LinkedAt(s, f, l, i);
        assert i < n - 1 ==> Differ(l, i, n - 1);
      }
    }
  }

  lemma AppendOk(s: State, lists: map<int, seq<int>>, h: int, r: Handle)
    requires Ok(s, lists) && h !in s.handleOf && Free(s, r.handleI, r.proc, r.procfd) && r.file in s.fileOf && r.next == None
    requires s.fileOf[r.file].last.Some? && s.fileOf[r.file].last.value in s.handleOf
    ensures Ok(Append(s, h, r), lists[r.file := lists[r.file] + [h]])
  {
    AppendPlaces(s, h, r);
    AppendLists(s, lists, h, r);
    var t := Append(s, h, r);
    forall f | f in s.fileOf ensures SameFile(s, t, f) {}
    FilesKept(s, t);
  }

  lemma AppendPlaces(s: State, h: int, r: Handle)
    requires HandlesOk(s) && FdsOk(s) && h !in s.handleOf && Free(s, r.handleI, r.proc, r.procfd) && r.file in s.fileOf
    requires s.fileOf[r.file].last.Some? && s.fileOf[r.file].last.value in s.handleOf
    ensures HandlesOk(Append(s, h, r)) && FdsOk(Append(s, h, r))
  {
    var f, last := r.file, s.fileOf[r.file].last.value;
    var u := s.(handleOf := s.handleOf[last := s.handleOf[last].(next := Some(h))],
                fileOf := s.fileOf[f := s.fileOf[f].(last := Some(h))]);
    forall x | x in s.handleOf ensures SamePlace(s, u, x) {}
    PlacesOk(s, u);
    RegisterHandles(u, h, r.(prev := Some(last)));
    RegisterFds(u, h, r.(prev := Some(last)));
  }

  lemma AppendLists(s: State, lists: map<int, seq<int>>, h: int, r: Handle)
    requires ListsOk(s, lists) && h !in s.handleOf && Free(s, r.handleI, r.proc, r.procfd) && r.file in s.fileOf && r.next == None
    requires s.fileOf[r.file].last.Some? && s.fileOf[r.file].last.value in s.handleOf
    ensures ListsOk(Append(s, h, r), lists[r.file := lists[r.file] + [h]])
  {
    var f, last := r.file, s.fileOf[r.file].last.value;
    var t, after := Append(s, h, r), lists[r.file := lists[r.file] + [h]];
    LastHandle(s, lists, f);
    AppendedList(s, f, lists[f], h, r);
    forall g | g in t.fileOf ensures ListOk(t, g, after[g]) {
      if g != f {
        forall x | x in s.handleOf && s.handleOf[x].file == g ensures SameHandle(s, t, x) { assert x != last; }
        ListKept(s, t, g, lists[g]);
      }
    }
    forall x | x in t.handleOf ensures InList(t, after, x) {
      if x != h { assert InList(s, lists, x) && t.handleOf[x].file == s.handleOf[x].file; }
    }
  }

  /** A list whose last handle has a successor is no list. */
  lemma LooseEnd(s: State, h: int, f: int)
    requires f in s.fileOf && s.fileOf[f].last == Some(h) && h in s.handleOf && s.handleOf[h].next != None
    ensures !Consistent(s)
  {
    forall lists ensures !Ok(s, lists) {
      if Ok(s, lists) {
        LastHandle(s, lists, f);
        assert false;
      }
    }
  }

  /** Opening a file that was not open. */
  lemma OpenWithOk(s: State, lists: map<int, seq<int>>, f: int, file: File, h: int, r: Handle)
    requires Ok(s, lists) && f !in s.fileOf && h !in s.handleOf && Free(s, r.handleI, r.proc, r.procfd)
    requires 0 <= file.fileI < |s.openFiles| && s.openFiles[file.fileI] == None
    requires r.file == f && r.prev == None && r.next == None
    requires forall g :: g in s.fileOf ==> s.fileOf[g].path != file.path
    ensures Ok(OpenWith(s, f, file, h, r), lists[f := [h]])
  {
    var t := OpenWith(s, f, file, h, r);
    RegisterHandles(s, h, r);
    RegisterFds(s, h, r);
    PlacesOk(Register(s, h, r), t);
    OpenFile(s, t, f, file.(first := Some(h), last := Some(h)));
    OpenWithLists(s, lists, f, file, h, r);
  }

  lemma OpenWithLists(s: State, lists: map<int, seq<int>>, f: int, file: File, h: int, r: Handle)
    requires ListsOk(s, lists) && f !in s.fileOf && h !in s.handleOf && Free(s, r.handleI, r.proc, r.procfd)
    requires 0 <= file.fileI < |s.openFiles| && r.file == f && r.prev == None && r.next == None
    ensures ListsOk(OpenWith(s, f, file, h, r), lists[f := [h]])
  {
    var t := OpenWith(s, f, file, h, r);
    forall g | g in t.fileOf ensures ListOk(t, g, lists[f := [h]][g]) {
      if g == f { assert LinkedAt(t, f, [h], 0); } else { ListKept(s, t, g, lists[g]); }
    }
    forall x | x in t.handleOf ensures InList(t, lists[f := [h]], x) { assert x != h ==> InList(s, lists, x); }
  }

  /** A new open file with a path of its own. */
  lemma OpenFile(s: State, t: State, f: int, file: File)
    requires FilesOk(s) && f !in s.fileOf && 0 <= file.fileI < |s.openFiles| && s.openFiles[file.fileI] == None
    requires t.fileOf == s.fileOf[f := file] && t.openFiles == s.openFiles[file.fileI := Some(f)]
    requires forall g :: g in s.fileOf ==> s.fileOf[g].path != file.path
    ensures FilesOk(t)
  {
    forall i | 0 <= i < |t.openFiles| ensures FileSlotOk(t, i) { assert FileSlotOk(s, i); }
    forall g | g in t.fileOf ensures InFileSlot(t, g) { assert g != f ==> InFileSlot(s, g); }
    forall g, k | g in t.fileOf && k in t.fileOf && g != k ensures PathsDiffer(t, g, k) {
      assert g != f && k != f ==> PathsDiffer(s, g, k);
    }
  }

  /** Making a pipe: two handles for a file of their own. */
  lemma OpenPairOk(s: State, lists: map<int, seq<int>>, f: int, file: File, h: int, r: Handle, g: int, q: Handle)
    requires Ok(s, lists) && f !in s.fileOf && h !in s.handleOf && g !in s.handleOf && h != g
    requires Free(s, r.handleI, r.proc, r.procfd) && Free(s, q.handleI, q.proc, q.procfd)
    requires r.handleI != q.handleI && r.proc == q.proc && r.procfd != q.procfd
    requires 0 <= file.fileI < |s.openFiles| && s.openFiles[file.fileI] == None
    requires r.file == q.file == f && r.prev == None && q.next == None
    requires forall x :: x in s.fileOf ==> s.fileOf[x].path != file.path
    ensures Ok(OpenPair(s, f, file, h, r, g, q), lists[f := [h, g]])
  {
    var t := OpenPair(s, f, file, h, r, g, q);
    PairPlaces(s, f, file, h, r, g, q);
    OpenFile(s, t, f, file.(first := Some(h), last := Some(g)));
    PairLists(s, lists, f, file, h, r, g, q);
  }

  lemma PairPlaces(s: State, f: int, file: File, h: int, r: Handle, g: int, q: Handle)
    requires HandlesOk(s) && FdsOk(s) && h !in s.handleOf && g !in s.handleOf && h != g
    requires Free(s, r.handleI, r.proc, r.procfd) && Free(s, q.handleI, q.proc, q.procfd)
    requires r.handleI != q.handleI && r.proc == q.proc && r.procfd != q.procfd && 0 <= file.fileI < |s.openFiles|
    ensures HandlesOk(OpenPair(s, f, file, h, r, g, q)) && FdsOk(OpenPair(s, f, file, h, r, g, q))
  {
    var t := OpenPair(s, f, file, h, r, g, q);
    var u := Register(s, h, r.(next := Some(g)));
    RegisterHandles(s, h, r.(next := Some(g)));
    RegisterFds(s, h, r.(next := Some(g)));
    RegisterHandles(u, g, q.(prev := Some(h)));
    RegisterFds(u, g, q.(prev := Some(h)));
    PlacesOk(Register(u, g, q.(prev := Some(h))), t);
  }

  lemma PairLists(s: State, lists: map<int, seq<int>>, f: int, file: File, h: int, r: Handle, g: int, q: Handle)
    requires ListsOk(s, lists) && f !in s.fileOf && h !in s.handleOf && g !in s.handleOf && h != g
    requires Free(s, r.handleI, r.proc, r.procfd) && Free(s, q.handleI, q.proc, q.procfd) && r.proc == q.proc
    requires 0 <= file.fileI < |s.openFiles| && r.file == q.file == f && r.prev == None && q.next == None
    ensures ListsOk(OpenPair(s, f, file, h, r, g, q), lists[f := [h, g]])
  {
    var t := OpenPair(s, f, file, h, r, g, q);
    assert LinkedAt(t, f, [h, g], 0) && LinkedAt(t, f, [h, g], 1) && Differ([h, g], 0, 1);
    forall x | x in t.fileOf ensures ListOk(t, x, lists[f := [h, g]][x]) {
      if x != f { ListKept(s, t, x, lists[x]); }
    }
    forall x | x in t.handleOf ensures InList(t, lists[f := [h, g]], x) { assert x != h && x != g ==> InList(s, lists, x); }
  }

  // ---------------------------------------------------------------------
  // Closing
  // ---------------------------------------------------------------------

  lemma UnregisteredPlaces(s: State, h: int)
    requires HandlesOk(s) && FdsOk(s) && h in s.handleOf && InFd(s, h) && InSlot(s, h)
    ensures HandlesOk(Unregistered(s, h)) && FdsOk(Unregistered(s, h))
  {
    var t := Unregistered(s, h);
    forall i | 0 <= i < |t.handles| ensures SlotOk(t, i) { assert SlotOk(s, i); }
    forall x | x in t.handleOf ensures InSlot(t, x) && InFd(t, x) { assert InSlot(s, x) && InFd(s, x); }
    forall p, fd | p in t.fds && 0 <= fd < |t.fds[p]| ensures FdOk(t, p, fd) { assert FdOk(s, p, fd); }
  }

  /** What becomes of the record of the handle at place j when the one at place k leaves the list. */
  lemma UnlinkedRecord(s: State, f: int, l: seq<int>, k: nat, j: nat)
    requires f in s.fileOf && ListOk(s, f, l) && k < |l| && j < |l| && j != k
    requires l[k] in s.handleOf && s.handleOf[l[k]].file == f
    ensures var t := Unlinked(s, l[k]);
      && l[j] in t.handleOf && t.handleOf[l[j]].file == f
      && t.handleOf[l[j]].prev == (if j == k + 1 then Before(l, k) else Before(l, j))
      && t.handleOf[l[j]].next == (if j + 1 == k then After(l, k) else After(l, j))
  {
    assert LinkedAt(s, f, l, k) && LinkedAt(s, f, l, j);
    assert Differ(l, if j < k then j else k, if j < k then k else j);
    if 0 < k && j != k - 1 { assert Differ(l, if j < k - 1 then j else k - 1, if j < k - 1 then k - 1 else j); }
    if k + 1 < |l| && j != k + 1 { assert Differ(l, if j < k + 1 then j else k + 1, if j < k + 1 then k + 1 else j); }
    if 0 < k { assert LinkedAt(s, f, l, k - 1); }
    if k + 1 < |l| { assert LinkedAt(s, f, l, k + 1); }
  }

  lemma UnlinkedEnds(s: State, f: int, l: seq<int>, k: nat)
    requires f in s.fileOf && ListOk(s, f, l) && k < |l| && l[k] in s.handleOf && s.handleOf[l[k]].file == f
    ensures var t, r := Unlinked(s, l[k]), l[..k] + l[k + 1..];
      && t.fileOf[f].first == (if r == [] then None else Some(r[0]))
      && t.fileOf[f].last == (if r == [] then None else Some(r[|r| - 1]))
  {
    assert LinkedAt(s, f, l, k);
    assert 0 < k ==> Differ(l, 0, k);
    assert k < |l| - 1 ==> Differ(l, k, |l| - 1);
  }

  /** The handle at place k leaves its list. */
  lemma UnlinkedList(s: State, f: int, l: seq<int>, k: nat)
    requires f in s.fileOf && ListOk(s, f, l) && k < |l| && l[k] in s.handleOf && s.handleOf[l[k]].file == f
    ensures var t, r := Unlinked(s, l[k]), l[..k] + l[k + 1..];
      Distinct(r) && l[k] !in r && forall i :: 0 <= i < |r| ==> LinkedAt(t, f, r, i)
  {
    var t, r := Unlinked(s, l[k]), l[..k] + l[k + 1..];
    WithoutDistinct(l, l[k]);
    WithoutAt(l, k);
    forall i | 0 <= i < |r| ensures LinkedAt(t, f, r, i) {
      UnlinkedRecord(s, f, l, k, if i < k then i else i + 1);
    }
  }

  /** The handles of other files are not touched. */
  lemma UnlinkedOthers(s: State, lists: map<int, seq<int>>, h: int, x: int)
    requires ListsOk(s, lists) && h in s.handleOf && x in s.handleOf && s.handleOf[h].file in s.fileOf
    ensures x in Unlinked(s, h).handleOf && Unlinked(s, h).handleOf[x].file == s.handleOf[x].file
    ensures s.handleOf[x].file != s.handleOf[h].file ==> Unlinked(s, h).handleOf[x] == s.handleOf[x]
    ensures SamePlace(s, Unlinked(s, h), x)
  {
    assert InList(s, lists, h);
    var f := s.handleOf[h].file;
    var l := lists[f];
    var k := Position(l, h);
    assert LinkedAt(s, f, l, k);
    if 0 < k { assert LinkedAt(s, f, l, k - 1); }
    if k + 1 < |l| { assert LinkedAt(s, f, l, k + 1); }
  }

  /** The lists after a handle has been closed; a list that is empty is gone with its file. */
  function WithoutHandle(lists: map<int, seq<int>>, f: int, h: int): map<int, seq<int>>
    requires f in lists
  {
    var l := Without(lists[f], h);
    if l == [] then lists - {f} else lists[f := l]
  }

  lemma ClosedLists(s: State, lists: map<int, seq<int>>, h: int)
    requires Ok(s, lists) && Live(s, h) && InList(s, lists, h)
    ensures ListsOk(Closed(s, h), WithoutHandle(lists, s.handleOf[h].file, h))
  {
    var f := s.handleOf[h].file;
    var l, t := lists[f], Closed(s, h);
    var k := Position(l, h);
    assert LinkedAt(s, f, l, k);
    UnlinkedEnds(s, f, l, k);
    UnlinkedList(s, f, l, k);
    WithoutAt(l, k);
    var r := Without(l, h);
    var after := WithoutHandle(lists, f, h);
    assert t.handleOf == Unlinked(s, h).handleOf - {h};
    forall x | x in s.handleOf ensures SamePlace(s, Unlinked(s, h), x) { UnlinkedOthers(s, lists, h, x); }
    forall g | g in t.fileOf ensures ListOk(t, g, after[g]) {
      if g == f {
        forall i | 0 <= i < |r| ensures LinkedAt(t, f, r, i) { assert LinkedAt(Unlinked(s, h), f, r, i); }
      } else {
        forall x | x in s.handleOf && s.handleOf[x].file == g ensures SameHandle(s, t, x) { UnlinkedOthers(s, lists, h, x); }
        ListKept(s, t, g, lists[g]);
      }
    }
    forall x | x in t.handleOf ensures InList(t, after, x) {
      UnlinkedOthers(s, lists, h, x);
      assert InList(s, lists, x);
    }
  }

  /** Closing a handle keeps the tables consistent; the file goes with its last handle. */
  lemma ClosedOk(s: State, lists: map<int, seq<int>>, h: int)
    requires Ok(s, lists) && Live(s, h) && InList(s, lists, h)
    ensures Ok(Closed(s, h), WithoutHandle(lists, s.handleOf[h].file, h))
  {
    var f, u := s.handleOf[h].file, Unlinked(s, h);
    forall x | x in s.handleOf ensures SamePlace(s, u, x) { UnlinkedOthers(s, lists, h, x); }
    assert u.handleOf.Keys == s.handleOf.Keys;
    PlacesOk(s, u);
    assert InFd(u, h) && InSlot(u, h);
    UnregisteredPlaces(u, h);
    var w := Unregistered(u, h);
    forall g | g in s.fileOf ensures SameFile(s, w, g) {}
    FilesKept(s, w);
    SweptFiles(w, f);
    ClosedLists(s, lists, h);
    forall x | x in w.handleOf ensures SamePlace(w, Closed(s, h), x) {}
    PlacesOk(w, Closed(s, h));
  }

  /** Nothing new comes from closing. */
  lemma ClosedNumbered(s: State, h: int, next: int)
    requires Live(s, h) && Numbered(s, next)
    ensures Numbered(Closed(s, h), next)
  {
    var t := Closed(s, h);
    forall f | f in t.fileOf ensures PipeBelow(t, f, next) { assert PipeBelow(s, f, next); }
  }

  lemma SweptFiles(s: State, f: int)
    requires FilesOk(s) && f in s.fileOf && InFileSlot(s, f)
    ensures FilesOk(Swept(s, f))
  {
    var t := Swept(s, f);
    forall i | 0 <= i < |t.openFiles| ensures FileSlotOk(t, i) { assert FileSlotOk(s, i); }
    forall g | g in t.fileOf ensures InFileSlot(t, g) { assert InFileSlot(s, g); }
    forall g, k | g in t.fileOf && k in t.fileOf && g != k ensures PathsDiffer(t, g, k) { assert PathsDiffer(s, g, k); }
  }

  // ---------------------------------------------------------------------
  // Moving
  // ---------------------------------------------------------------------

  /** The descriptor is free, or the one that the handle is in. */
  predicate Vacant(s: State, h: int, p: int, fd: int)
    requires p in s.fds && 0 <= fd < |s.fds[p]|
  {
    s.fds[p][fd] == None || s.fds[p][fd] == Some(h)
  }

  lemma MovedFds(s: State, h: int, p: int, fd: int)
    requires FdsOk(s) && h in s.handleOf && InFd(s, h) && p in s.fds && 0 <= fd < |s.fds[p]| && Vacant(s, h, p, fd)
    ensures FdsOk(Moved(s, h, p, fd))
  {
    var t := Moved(s, h, p, fd);
    forall x | x in t.handleOf ensures InFd(t, x) { assert InFd(s, x); }
    forall q, i | q in t.fds && 0 <= i < |t.fds[q]| ensures FdOk(t, q, i) { assert FdOk(s, q, i); }
  }

  lemma MovedOk(s: State, lists: map<int, seq<int>>, h: int, p: int, fd: int)
    requires Ok(s, lists) && h in s.handleOf && InFd(s, h) && p in s.fds && 0 <= fd < |s.fds[p]| && Vacant(s, h, p, fd)
    ensures Ok(Moved(s, h, p, fd), lists)
  {
    var t := Moved(s, h, p, fd);
    MovedFds(s, h, p, fd);
    forall i | 0 <= i < |t.handles| ensures SlotOk(t, i) { assert SlotOk(s, i); }
    forall x | x in t.handleOf ensures InSlot(t, x) { assert InSlot(s, x); }
    forall f | f in s.fileOf ensures SameFile(s, t, f) {}
    FilesKept(s, t);
    forall f | f in t.fileOf ensures ListOk(t, f, lists[f]) {
      forall i | 0 <= i < |lists[f]| ensures LinkedAt(t, f, lists[f], i) { assert LinkedAt(s, f, lists[f], i); }
    }
    forall x | x in t.handleOf ensures InList(t, lists, x) { assert InList(s, lists, x); }
  }

  /** A handle whose descriptor is taken by another one is in none. */
  lemma MovedOver(s: State, h: int, p: int, fd: int)
    requires FdsOk(s) && h in s.handleOf && InFd(s, h) && p in s.fds && 0 <= fd < |s.fds[p]| && !Vacant(s, h, p, fd)
    ensures !Consistent(Moved(s, h, p, fd))
  {
    var t := Moved(s, h, p, fd);
    var g := s.fds[p][fd].value;
    assert FdOk(s, p, fd);
    assert g in t.handleOf && !InFd(t, g);
  }

  /** Nothing new comes from moving. */
  lemma MovedNumbered(s: State, h: int, p: int, fd: int, next: int)
    requires Numbered(s, next) && h in s.handleOf && InFd(s, h) && p in s.fds && 0 <= fd < |s.fds[p]|
    ensures Numbered(Moved(s, h, p, fd), next)
  {
    var t := Moved(s, h, p, fd);
    forall f | f in t.fileOf ensures PipeBelow(t, f, next) { assert PipeBelow(s, f, next); }
  }

  /**
    Moving a handle keeps the tables consistent exactly when the descriptor that
    it moves to is free, or is the one it is in already.
   */
  lemma MoveIsConsistent(s: State, h: int, p: int, fd: int)
    requires Consistent(s) && h in s.handleOf && InFd(s, h) && p in s.fds && 0 <= fd < |s.fds[p]|
    ensures Consistent(Moved(s, h, p, fd)) <==> Vacant(s, h, p, fd)
  {
    var lists :| Ok(s, lists);
    if Vacant(s, h, p, fd) { MovedOk(s, lists, h, p, fd); } else { MovedOver(s, h, p, fd); }
  }

  // ---------------------------------------------------------------------
  // Duplicating
  // ---------------------------------------------------------------------

  /** The copy of a handle that `duplicate_fd` makes: it keeps the source's successor. */
  function Copy(r: Handle, i: int, fd: int): Handle { r.(handleI := i, procfd := fd) }

  /**
    Duplicating a descriptor keeps the tables consistent exactly when the source
    is the last handle of its file: the copy takes over the source's successor
    although it is put at the end of the list.
   */
  lemma DuplicateIsConsistent(s: State, src: int, h: int, i: int, fd: int)
    requires Consistent(s) && src in s.handleOf && h !in s.handleOf && Free(s, i, s.handleOf[src].proc, fd)
    requires s.handleOf[src].file in s.fileOf && s.fileOf[s.handleOf[src].file].last.Some?
    requires s.fileOf[s.handleOf[src].file].last.value in s.handleOf
    ensures Consistent(Append(s, h, Copy(s.handleOf[src], i, fd))) <==> s.fileOf[s.handleOf[src].file].last == Some(src)
  {
    var r := s.handleOf[src];
    var f := r.file;
    var lists :| Ok(s, lists);
    assert InList(s, lists, src);
    var l := lists[f];
    var k := Position(l, src);
    assert LinkedAt(s, f, l, k);
    assert k < |l| - 1 ==> Differ(l, k, |l| - 1);
    if r.next == None {
      AppendOk(s, lists, h, Copy(r, i, fd));
    } else {
      LooseEnd(Append(s, h, Copy(r, i, fd)), h, f);
    }
  }

  // ---------------------------------------------------------------------
  // The steps as the methods use them
  // ---------------------------------------------------------------------

  /** What is known of a handle that exists. */
  lemma HandleFacts(s: State, lists: map<int, seq<int>>, h: int)
    requires Ok(s, lists) && h in s.handleOf
    ensures Live(s, h) && InList(s, lists, h)
    ensures s.handleOf[h].prev.Some? ==> s.handleOf[h].prev.value in s.handleOf && s.handleOf[h].prev.value != h
    ensures s.handleOf[h].next.Some? ==> s.handleOf[h].next.value in s.handleOf && s.handleOf[h].next.value != h
  {
    assert InList(s, lists, h);
    var f := s.handleOf[h].file;
    var l := lists[f];
    var k := Position(l, h);
    assert LinkedAt(s, f, l, k);
    if 0 < k { assert LinkedAt(s, f, l, k - 1) && Differ(l, k - 1, k); }
    if k + 1 < |l| { assert LinkedAt(s, f, l, k + 1) && Differ(l, k, k + 1); }
    assert InFileSlot(s, f) && InFd(s, h) && InSlot(s, h);
  }

  /** Closing a handle that exists. */
  lemma ClosedConsistent(s: State, h: int, next: int)
    requires Consistent(s) && Numbered(s, next) && h in s.handleOf
    ensures Live(s, h) && Consistent(Closed(s, h)) && Numbered(Closed(s, h), next)
    ensures s.handleOf[h].prev.Some? ==> s.handleOf[h].prev.value in s.handleOf && s.handleOf[h].prev.value != h
    ensures s.handleOf[h].next.Some? ==> s.handleOf[h].next.value in s.handleOf && s.handleOf[h].next.value != h
  {
    var lists :| Ok(s, lists);
    HandleFacts(s, lists, h);
    ClosedOk(s, lists, h);
    ClosedNumbered(s, h, next);
  }

  /** One more handle for an open file. */
  lemma AppendConsistent(s: State, h: int, r: Handle)
    requires Consistent(s) && Numbered(s, h) && Free(s, r.handleI, r.proc, r.procfd) && r.file in s.fileOf && r.next == None
    ensures s.fileOf[r.file].last.Some? && s.fileOf[r.file].last.value in s.handleOf
    ensures Consistent(Append(s, h, r)) && Numbered(Append(s, h, r), h + 1)
  {
    var lists :| Ok(s, lists);
    LastHandle(s, lists, r.file);
    AppendOk(s, lists, h, r);
    AppendNumbered(s, h, r);
  }

  lemma AppendNumbered(s: State, h: int, r: Handle)
    requires Numbered(s, h) && Free(s, r.handleI, r.proc, r.procfd) && r.file in s.fileOf
    requires s.fileOf[r.file].last.Some? && s.fileOf[r.file].last.value in s.handleOf
    ensures Numbered(Append(s, h, r), h + 1)
  {
    var t := Append(s, h, r);
    forall f | f in t.fileOf ensures PipeBelow(t, f, h + 1) { assert PipeBelow(s, f, h); }
  }

  /** A file with its first handle. */
  lemma OpenWithConsistent(s: State, f: int, file: File, h: int, r: Handle)
    requires Consistent(s) && Numbered(s, h) && h < f && Free(s, r.handleI, r.proc, r.procfd)
    requires 0 <= file.fileI < |s.openFiles| && s.openFiles[file.fileI] == None && file.path.Named?
    requires r.file == f && r.prev == None && r.next == None
    requires forall g :: g in s.fileOf ==> s.fileOf[g].path != file.path
    ensures Consistent(OpenWith(s, f, file, h, r)) && Numbered(OpenWith(s, f, file, h, r), f + 1)
  {
    var lists :| Ok(s, lists);
    OpenWithOk(s, lists, f, file, h, r);
    var t := OpenWith(s, f, file, h, r);
    forall x | x in t.fileOf ensures PipeBelow(t, x, f + 1) { assert x != f ==> PipeBelow(s, x, h); }
  }

  /** A pipe with its two ends. */
  lemma PairConsistent(s: State, f: int, file: File, h: int, r: Handle, g: int, q: Handle)
    requires Consistent(s) && Numbered(s, f) && f < h < g && file.path == Pipe(f)
    requires Free(s, r.handleI, r.proc, r.procfd) && Free(s, q.handleI, q.proc, q.procfd)
    requires r.handleI != q.handleI && r.proc == q.proc && r.procfd != q.procfd
    requires 0 <= file.fileI < |s.openFiles| && s.openFiles[file.fileI] == None
    requires r.file == q.file == f && r.prev == None && q.next == None
    ensures Consistent(OpenPair(s, f, file, h, r, g, q)) && Numbered(OpenPair(s, f, file, h, r, g, q), g + 1)
  {
    var lists :| Ok(s, lists);
    forall x | x in s.fileOf ensures s.fileOf[x].path != file.path { assert PipeBelow(s, x, f); }
    OpenPairOk(s, lists, f, file, h, r, g, q);
    PairNumbered(s, f, file, h, r, g, q);
  }

  lemma PairNumbered(s: State, f: int, file: File, h: int, r: Handle, g: int, q: Handle)
    requires Free(s, r.handleI, r.proc, r.procfd) && Free(s, q.handleI, q.proc, q.procfd) && r.proc == q.proc
    requires 0 <= file.fileI < |s.openFiles| && Numbered(s, f) && f < h < g && file.path == Pipe(f)
    ensures Numbered(OpenPair(s, f, file, h, r, g, q), g + 1)
  {
    var t := OpenPair(s, f, file, h, r, g, q);
    forall x | x in t.fileOf ensures PipeBelow(t, x, g + 1) { assert x != f ==> PipeBelow(s, x, f); }
  }

  // ---------------------------------------------------------------------
  // Where the code goes wrong
  // ---------------------------------------------------------------------

  /** A pipe that has just been made is consistent; a copy of its reading end always breaks the tables. */
  lemma PipeCopyBreaks(s: State, f: int, file: File, h: int, r: Handle, g: int, q: Handle, x: int, i: int, fd: int)
    requires Consistent(s) && Numbered(s, f) && f < h < g < x && file.path == Pipe(f)
    requires Free(s, r.handleI, r.proc, r.procfd) && Free(s, q.handleI, q.proc, q.procfd)
    requires r.handleI != q.handleI && r.proc == q.proc && r.procfd != q.procfd
    requires 0 <= file.fileI < |s.openFiles| && s.openFiles[file.fileI] == None
    requires r.file == q.file == f && r.prev == None && q.next == None
    requires Free(OpenPair(s, f, file, h, r, g, q), i, r.proc, fd)
    ensures var t := OpenPair(s, f, file, h, r, g, q);
      Consistent(t) && !Consistent(Append(t, x, Copy(t.handleOf[h], i, fd)))
  {
    var t := OpenPair(s, f, file, h, r, g, q);
    PairConsistent(s, f, file, h, r, g, q);
    assert t.handleOf[h] == r.(next := Some(g)) && t.fileOf[f].last == Some(g);
    assert x !in t.handleOf;
    DuplicateIsConsistent(t, h, x, i, fd);
  }

  /** Moving its reading end to the descriptor of its writing end always breaks them, too. */
  lemma PipeMoveBreaks(s: State, f: int, file: File, h: int, r: Handle, g: int, q: Handle)
    requires Consistent(s) && Numbered(s, f) && f < h < g && file.path == Pipe(f)
    requires Free(s, r.handleI, r.proc, r.procfd) && Free(s, q.handleI, q.proc, q.procfd)
    requires r.handleI != q.handleI && r.proc == q.proc && r.procfd != q.procfd
    requires 0 <= file.fileI < |s.openFiles| && s.openFiles[file.fileI] == None
    requires r.file == q.file == f && r.prev == None && q.next == None
    ensures var t := OpenPair(s, f, file, h, r, g, q);
      InFd(t, h) && !Consistent(Moved(t, h, q.proc, q.procfd))
  {
    var t := OpenPair(s, f, file, h, r, g, q);
    PairConsistent(s, f, file, h, r, g, q);
    assert t.handleOf[h] == r.(next := Some(g));
    assert t.fds[q.proc][q.procfd] == Some(g);
    MoveIsConsistent(t, h, q.proc, q.procfd);
  }

  /** The tables before anything is opened. */
  function Empty(procs: set<int>): State {
    State(map[], map[], seq(MAX_HANDLES, _ => None), seq(MAX_OPEN_FILES, _ => None),
          map p | p in procs :: seq(MAX_PROC_FILES, _ => None))
  }

  lemma EmptyConsistent(procs: set<int>)
    ensures Consistent(Empty(procs)) && Numbered(Empty(procs), 0)
  {
    assert Ok(Empty(procs), map[]);
  }

  /** The first pipe of a system, with descriptors 3 and 4: copying 3, or moving 3 to 4, breaks the tables. */
  lemma FirstPipeBreaks(procs: set<int>, p: int, flags: Flags, perm: int)
    requires p in procs
    ensures var file := File(0, Pipe(0), PipeEnd, perm, None, None);
      var r, q := Handle(0, 0, flags, 0, p, 3, None, None), Handle(1, 0, flags, 0, p, 4, None, None);
      var t := OpenPair(Empty(procs), 0, file, 1, r, 2, q);
      && Consistent(t)
      && !Consistent(Append(t, 3, Copy(t.handleOf[1], 2, 5)))
      && !Consistent(Moved(t, 1, p, 4))
  {
    var file := File(0, Pipe(0), PipeEnd, perm, None, None);
    var r, q := Handle(0, 0, flags, 0, p, 3, None, None), Handle(1, 0, flags, 0, p, 4, None, None);
    EmptyConsistent(procs);
    PipeCopyBreaks(Empty(procs), 0, file, 1, r, 2, q, 3, 2, 5);
    PipeMoveBreaks(Empty(procs), 0, file, 1, r, 2, q);
  }

  // ---------------------------------------------------------------------
  // What consistency means
  // ---------------------------------------------------------------------

  ghost predicate RefersTo(s: State, h: int, f: int) { h in s.handleOf && s.handleOf[h].file == f }

  /** The slots of a handle: i in the global table, descriptor fd of process p. */
  ghost predicate Slots(s: State, h: int, i: int, p: int, fd: int) {
    && 0 <= i < |s.handles| && s.handles[i] == Some(h)
    && p in s.fds && 0 <= fd < |s.fds[p]| && s.fds[p][fd] == Some(h)
  }

  ghost predicate OnlySlots(s: State, h: int, i: int, p: int, fd: int) {
    Slots(s, h, i, p, fd) && forall j, q, k :: Slots(s, h, j, q, k) ==> j == i && q == p && k == fd
  }

  /**
    In consistent tables each handle is in exactly one slot of the global table
    and exactly one descriptor of one process, and a file is open if and only if
    some handle refers to it.
   */
  lemma OnePlaceEach(s: State, h: int, f: int)
    requires Consistent(s) && h in s.handleOf
    ensures exists i, p, fd :: OnlySlots(s, h, i, p, fd)
    ensures f in s.fileOf <==> exists x :: RefersTo(s, x, f)
  {
    var lists :| Ok(s, lists);
    HandleFacts(s, lists, h);
    var r := s.handleOf[h];
    assert Slots(s, h, r.handleI, r.proc, r.procfd);
    forall j, q, k | Slots(s, h, j, q, k) ensures j == r.handleI && q == r.proc && k == r.procfd {
      assert SlotOk(s, j) && FdOk(s, q, k);
    }
    assert OnlySlots(s, h, r.handleI, r.proc, r.procfd);
    if f in s.fileOf {
      assert LinkedAt(s, f, lists[f], 0);
      assert RefersTo(s, lists[f][0], f);
    }
    forall x | RefersTo(s, x, f) ensures f in s.fileOf { assert InList(s, lists, x); }
  }
}
