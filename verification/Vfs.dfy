/**
  `open`, `close`, `duplicate_fd`, `transplant_fd` and `make_pipe` of
  src/kernel/src/filesystem/vfs.cc. Each runs under the lock of the whole
  system, so each is one step. What the file systems say about a path that is
  not open is a parameter.
 */
module Vfs {
  import opened Basics
  import opened Lists
  import opened VfsSpec
  import opened VfsSteps
  import Errno
  import VfsAccess
  import VfsTheorems

  /** What the file systems know of a path. */
  datatype Lookup = Found(ftype: Type, perm: int) | Missing(err: int)

  /** The slot of the open file with this path, or -1. */
  ghost predicate IsOpenAt(s: State, path: Path, i: int) {
    0 <= i < |s.openFiles| && s.openFiles[i].Some? && s.openFiles[i].value in s.fileOf && s.fileOf[s.openFiles[i].value].path == path
  }

  /** There are fewer than two free slots from `from` on. */
  predicate NoTwo(t: seq<Option<int>>, from: nat) {
    var i := FirstFree(t, from);
    i < 0 || FirstFree(t[i := Some(1)], from) < 0
  }

  /** Why a new descriptor cannot be had, or which one it is. */
  function PickFd(s: State, p: int, fd: int): int
    requires p in s.fds
  {
    var auto := FirstFree(s.fds[p], FIRST_FD);
    if auto < 0 then auto
    else if fd < 0 then auto
    else if fd < |s.fds[p]| && s.fds[p][fd] == None then fd
    else Errno.BAD_FD
  }

  /** The type and permissions that an open has to go by. */
  function Facts(s: State, at: int, look: Lookup): (Type, int) {
    if 0 <= at < |s.openFiles| && s.openFiles[at].Some? && s.openFiles[at].value in s.fileOf
    then (s.fileOf[s.openFiles[at].value].ftype, s.fileOf[s.openFiles[at].value].perm)
    else match look case Found(t, m) => (t, m) case Missing(_) => (Regular, 0)
  }

  /** The result of `open`: a descriptor, or the first thing that is wrong. */
  function OpenResult(s: State, p: int, fd: int, at: int, flags: Flags, look: Lookup): int
    requires p in s.fds
  {
    if at < 0 && FirstFree(s.openFiles, 0) < 0 then FirstFree(s.openFiles, 0)
    else if at < 0 && look.Missing? then look.err
    else
      var (ftype, perm) := Facts(s, at, look);
      if Check(ftype, perm, Implied(flags)) != Errno.SUCCESS then Check(ftype, perm, Implied(flags))
      else if FirstFree(s.handles, 0) < 0 then FirstFree(s.handles, 0)
      else PickFd(s, p, fd)
  }

  lemma PickedChosen(s: State, p: int, fd: int, r: int)
    requires p in s.fds && r == PickFd(s, p, fd) && 0 <= r
    ensures VfsAccess.Chosen(s, p, fd, r)
  {}

  ghost predicate Full(t: seq<Option<int>>, from: int) { forall j :: 0 <= from <= j < |t| ==> t[j].Some? }

  /**
    What `open` returns for a file of the given type and mode, which is open at
    slot `at`, or is found there: the first of these errors, or the descriptor.
   */
  lemma OpenErrors(s: State, p: int, fd: int, path: Path, at: int, flags: Flags, look: Lookup, ftype: Type, perm: int)
    requires p in s.fds && (at == -1 || IsOpenAt(s, path, at))
    requires at >= 0 ==> ftype == s.fileOf[s.openFiles[at].value].ftype && perm == s.fileOf[s.openFiles[at].value].perm
    requires at < 0 && look.Found? ==> ftype == look.ftype && perm == look.perm
    ensures var r := OpenResult(s, p, fd, at, flags, look);
      if at < 0 && Full(s.openFiles, 0) then r == -3
      else if at < 0 && look.Missing? then r == look.err
      else if VfsAccess.Refusal(ftype, perm, flags) != 0 then r == VfsAccess.Refusal(ftype, perm, flags)
      else if Full(s.handles, 0) || Full(s.fds[p], 3) then r == -3
      else if fd >= 0 && !(fd < |s.fds[p]| && s.fds[p][fd] == None) then r == -4
      else VfsAccess.Chosen(s, p, fd, r)
  {
    VfsAccess.CheckCases(ftype, perm, flags);
  }

  class Vfs {
    var handleOf: map<int, Handle>
    var fileOf: map<int, File>
    var handles: seq<Option<int>>
    var openFiles: seq<Option<int>>
    var fds: map<int, seq<Option<int>>>
    /** The next number for a handle or a file. */
    var next: int

    function St(): State
      reads this
    {
      State(handleOf, fileOf, handles, openFiles, fds)
    }

    /** The tables as a value, to which the steps apply. */
    ghost function Now(): Tables
      reads this
    {
      Tables(St(), next)
    }

    ghost predicate Valid()
      reads this
    {
      Sound(Now())
    }

    constructor (procs: set<int>)
      ensures Valid() && Now() == Start(procs)
    {
      handleOf, fileOf, next := map[], map[], 0;
      handles := seq(MAX_HANDLES, _ => None);
      openFiles := seq(MAX_OPEN_FILES, _ => None);
      fds := map p | p in procs :: seq(MAX_PROC_FILES, _ => None);
      new;
      assert Ok(St(), map[]);
    }

    /** The scans for a free number: `alloc_handle_i`, `alloc_file_i` and `alloc_proc_handle_i`. */
    method FindFree(t: seq<Option<int>>, from: nat) returns (i: int)
      ensures i == FirstFree(t, from)
    {
      i := from;
      while i < |t|
        invariant from <= i && FirstFree(t, i) == FirstFree(t, from)
        decreases |t| - i
      {
        if t[i] == None { return; }
        i := i + 1;
      }
      i := Errno.LIMIT;
    }

    /** `find_open_file` */
    method FindOpenFile(path: Path) returns (i: int)
      requires Valid()
      ensures i == -1 || IsOpenAt(St(), path, i)
      ensures i == -1 ==> forall f :: f in fileOf ==> fileOf[f].path != path
    {
      i := 0;
      while i < |openFiles|
        invariant 0 <= i <= |openFiles|
        invariant forall j :: 0 <= j < i ==> !IsOpenAt(St(), path, j)
      {
        if openFiles[i].Some? {
          assert FileSlotOk(St(), i);
          if fileOf[openFiles[i].value].path == path { return; }
        }
        i := i + 1;
      }
      i := -1;
      forall f | f in fileOf ensures fileOf[f].path != path {
        assert InFileSlot(St(), f);
        assert !IsOpenAt(St(), path, fileOf[f].fileI);
      }
    }

    /** The choice of a descriptor in `open` and `duplicate_fd`. */
    method ChooseFd(p: int, fd: int) returns (r: int)
      requires p in fds
      ensures r == PickFd(St(), p, fd)
    {
      r := FindFree(fds[p], FIRST_FD);
      if r < 0 { return; }
      if fd >= 0 {
        if fd < |fds[p]| && fds[p][fd] == None { r := fd; } else { r := Errno.BAD_FD; }
      }
    }

    /** `handle_by_fd` */
    method HandleByFd(p: int, fd: int) returns (h: Option<int>)
      requires Valid() && p in fds
      ensures h == if 0 <= fd < |fds[p]| then fds[p][fd] else None
      ensures h.Some? ==> h.value in handleOf && InFd(St(), h.value) && handleOf[h.value].proc == p && handleOf[h.value].procfd == fd
    {
      if fd >= 0 && fd < |fds[p]| {
        h := fds[p][fd];
        assert FdOk(St(), p, fd);
        if h.Some? { assert InFd(St(), h.value); }
      } else {
        h := None;
      }
    }

    /** A new handle goes to the end of the list of its file, which is empty when the file is new. */
    method LinkHandle(h: int, f: int)
      requires f in fileOf && h in handleOf && (fileOf[f].last.Some? ==> fileOf[f].last.value in handleOf && fileOf[f].last.value != h)
      modifies this`handleOf, this`fileOf
      ensures var last := old(fileOf)[f].last;
        if last.Some? then
          && fileOf == old(fileOf)[f := old(fileOf)[f].(last := Some(h))]
          && handleOf == old(handleOf)[last.value := old(handleOf)[last.value].(next := Some(h))]
                                      [h := old(handleOf)[h].(prev := last)]
        else handleOf == old(handleOf) && fileOf == old(fileOf)[f := old(fileOf)[f].(first := Some(h), last := Some(h))]
    {
      if fileOf[f].last.Some? {
        var last := fileOf[f].last.value;
        handleOf := handleOf[last := handleOf[last].(next := Some(h))];
        handleOf := handleOf[h := handleOf[h].(prev := Some(last))];
        fileOf := fileOf[f := fileOf[f].(last := Some(h))];
      } else {
        fileOf := fileOf[f := fileOf[f].(first := Some(h))];
        fileOf := fileOf[f := fileOf[f].(last := Some(h))];
      }
    }

    /** The end of `open` and `duplicate_fd` for an open file: the handle enters all the tables. */
    method AddHandle(h: int, r: Handle)
      requires Consistent(St()) && h !in handleOf && Free(St(), r.handleI, r.proc, r.procfd) && r.file in fileOf
      modifies this`handleOf, this`fileOf, this`handles, this`fds
      ensures old(fileOf)[r.file].last.Some? && old(fileOf)[r.file].last.value in old(handleOf)
      ensures St() == Append(old(St()), h, r)
    {
      ghost var lists :| Ok(St(), lists);
      VfsTheorems.LastHandle(St(), lists, r.file);
      ghost var m := handleOf;
      handleOf := handleOf[h := r];
      handles := handles[r.handleI := Some(h)];
      LinkHandle(h, r.file);
      fds := fds[r.proc := fds[r.proc][r.procfd := Some(h)]];
      ghost var last := old(fileOf)[r.file].last.value;
      assert m[h := r][last := m[last].(next := Some(h))][h := r.(prev := Some(last))]
          == m[last := m[last].(next := Some(h))][h := r.(prev := Some(last))];
    }

    /** The end of `open` for a file that was not open. */
    method AddFile(f: int, file: File, h: int, r: Handle)
      requires Consistent(St()) && f !in fileOf && h !in handleOf && Free(St(), r.handleI, r.proc, r.procfd)
      requires 0 <= file.fileI < |openFiles| && file.first == file.last == None && r.file == f
      modifies this`handleOf, this`fileOf, this`handles, this`openFiles, this`fds
      ensures St() == OpenWith(old(St()), f, file, h, r)
    {
      fileOf := fileOf[f := file];
      openFiles := openFiles[file.fileI := Some(f)];
      handleOf := handleOf[h := r];
      handles := handles[r.handleI := Some(h)];
      LinkHandle(h, f);
      fds := fds[r.proc := fds[r.proc][r.procfd := Some(h)]];
    }

    /** The first half of `open`, which changes nothing: the result, and the numbers it has found. */
    method PlanOpen(p: int, fd: int, path: Path, flags: Flags, look: Lookup)
      returns (r: int, known: bool, openFileI: int, handleI: int, ghost at: int)
      requires Valid() && p in fds && (look.Missing? ==> look.err < 0)
      ensures IsOpenAt(St(), path, at) || (at == -1 && forall f :: f in fileOf ==> fileOf[f].path != path)
      ensures r == OpenResult(St(), p, fd, at, flags, look) && known == (at >= 0)
      ensures r >= 0 ==>
        && handleI == FirstFree(handles, 0) && Free(St(), handleI, p, r)
        && openFileI == (if known then at else FirstFree(openFiles, 0)) && 0 <= openFileI < |openFiles|
        && (!known ==> look.Found?)
        && Check(Facts(St(), at, look).0, Facts(St(), at, look).1, Implied(flags)) == Errno.SUCCESS
        && r == PickFd(St(), p, fd)
    {
      handleI := 0;
      openFileI := FindOpenFile(path);
      at := openFileI;
      known := openFileI >= 0;
      var ftype, perm;
      if known {
        var file := fileOf[openFiles[openFileI].value];
        ftype, perm := file.ftype, file.perm;
      } else {
        openFileI := FindFree(openFiles, 0);
        if openFileI < 0 { r := openFileI; return; }
        if look.Missing? { r := look.err; return; }
        ftype, perm := look.ftype, look.perm;
      }
      r := Check(ftype, perm, Implied(flags));
      if r != Errno.SUCCESS { return; }
      handleI := FindFree(handles, 0);
      if handleI < 0 { r := handleI; return; }
      r := ChooseFd(p, fd);
    }

    /** The second half of `open` for a file that is open already. */
    method OpenKnown(f: int, handleI: int, flags: Flags, p: int, fd: int)
      requires Valid() && f in fileOf && handleI == FirstFree(handles, 0) && Free(St(), handleI, p, fd)
      requires Check(fileOf[f].ftype, fileOf[f].perm, Implied(flags)) == Errno.SUCCESS
      modifies this
      ensures Valid()
      ensures var t, step := old(Now()), Step.OpenKnown(f, flags, p, fd); Enabled(t, step) && Now() == Apply(t, step)
      ensures VfsAccess.Opened(old(St()), St(), p, old(fileOf)[f].path, flags, fd)
    {
      ghost var t := Now();
      var r := Handle(handleI, f, Implied(flags), 0, p, fd, None, None);
      VfsTheorems.AppendConsistent(St(), next, r);
      var h := next;
      next := next + 1;
      AddHandle(h, r);
      VfsAccess.OpenKnownGives(t, f, flags, p, fd);
    }

    /** The second half of `open` for a file that was not open. */
    method OpenNew(file: File, handleI: int, flags: Flags, p: int, fd: int)
      requires Valid() && handleI == FirstFree(handles, 0) && Free(St(), handleI, p, fd)
      requires 0 <= file.fileI < |openFiles| && openFiles[file.fileI] == None && file.first == file.last == None
      requires file.path.Named? && forall g :: g in fileOf ==> fileOf[g].path != file.path
      modifies this
      ensures Valid() && next == old(next) + 2
      ensures var s, h, f := old(St()), old(next), old(next) + 1;
        St() == OpenWith(s, f, file, h, NewHandle(s, f, flags, p, fd))
    {
      var h, f := next, next + 1;
      var r := Handle(handleI, f, flags, 0, p, fd, None, None);
      VfsTheorems.OpenWithConsistent(St(), f, file, h, r);
      next := next + 2;
      AddFile(f, file, h, r);
    }

    /** The second half of `open` for a path that was not open and that a file system has found. */
    method OpenFound(path: Path, ftype: Type, perm: int, openFileI: int, handleI: int, flags: Flags, p: int, fd: int)
      requires Valid() && handleI == FirstFree(handles, 0) && Free(St(), handleI, p, fd)
      requires openFileI == FirstFree(openFiles, 0) && 0 <= openFileI < |openFiles|
      requires path.Named? && forall g :: g in fileOf ==> fileOf[g].path != path
      requires Check(ftype, perm, Implied(flags)) == Errno.SUCCESS
      modifies this
      ensures Valid()
      ensures var t, step := old(Now()), Step.OpenNew(path, ftype, perm, flags, p, fd); Enabled(t, step) && Now() == Apply(t, step)
      ensures VfsAccess.Opened(old(St()), St(), p, path, flags, fd)
    {
      VfsAccess.OpenNewGives(Now(), path, ftype, perm, flags, p, fd);
      OpenNew(File(openFileI, path, ftype, perm, None, None), handleI, Implied(flags), p, fd);
    }

    /**
      `open`. `at` is the slot of the file when it is open already. A failing
      open changes nothing.
     */
    method Open(p: int, fd: int, path: Path, flags: Flags, look: Lookup) returns (r: int, ghost at: int)
      requires Valid() && p in fds && path.Named? && (look.Missing? ==> look.err < 0)
      modifies this
      ensures Valid()
      ensures IsOpenAt(old(St()), path, at) || (at == -1 && forall f :: f in old(fileOf) ==> old(fileOf)[f].path != path)
      ensures r == OpenResult(old(St()), p, fd, at, flags, look)
      ensures r < 0 ==> Now() == old(Now())
      ensures r >= 0 && at >= 0 ==>
        var t, step := old(Now()), Step.OpenKnown(old(openFiles)[at].value, flags, p, r);
        Enabled(t, step) && Now() == Apply(t, step)
      ensures r >= 0 && at < 0 ==> look.Found?
      ensures r >= 0 && at < 0 ==>
        var t, step := old(Now()), Step.OpenNew(path, look.ftype, look.perm, flags, p, r);
        Enabled(t, step) && Now() == Apply(t, step)
      ensures r >= 0 ==> VfsAccess.Chosen(old(St()), p, fd, r) && VfsAccess.Opened(old(St()), St(), p, path, flags, r)
    {
      var known, openFileI, handleI;
      r, known, openFileI, handleI, at := PlanOpen(p, fd, path, flags, look);
      if r < 0 { return; }
      PickedChosen(St(), p, fd, r);
      if known {
        OpenKnown(openFiles[openFileI].value, handleI, flags, p, r);
      } else {
        OpenFound(path, look.ftype, look.perm, openFileI, handleI, flags, p, r);
      }
    }

    /** The links around a handle that is closed. */
    method UnlinkHandle(h: int)
      requires h in handleOf && handleOf[h].file in fileOf
      requires handleOf[h].prev.Some? ==> handleOf[h].prev.value in handleOf && handleOf[h].prev.value != h
      requires handleOf[h].next.Some? ==> handleOf[h].next.value in handleOf && handleOf[h].next.value != h
      modifies this`handleOf, this`fileOf
      ensures St() == Unlinked(old(St()), h)
    {
      var r := handleOf[h];
      if r.prev.Some? { handleOf := handleOf[r.prev.value := handleOf[r.prev.value].(next := r.next)]; }
      if r.next.Some? { handleOf := handleOf[r.next.value := handleOf[r.next.value].(prev := r.prev)]; }
      if fileOf[r.file].first == Some(h) { fileOf := fileOf[r.file := fileOf[r.file].(first := r.next)]; }
      if fileOf[r.file].last == Some(h) { fileOf := fileOf[r.file := fileOf[r.file].(last := r.prev)]; }
    }

    /** The body of `close` for a handle that exists. */
    method CloseHandle(h: int)
      requires Live(St(), h)
      requires handleOf[h].prev.Some? ==> handleOf[h].prev.value in handleOf && handleOf[h].prev.value != h
      requires handleOf[h].next.Some? ==> handleOf[h].next.value in handleOf && handleOf[h].next.value != h
      modifies this`handleOf, this`fileOf, this`handles, this`openFiles, this`fds
      ensures St() == Closed(old(St()), h)
    {
      var r := handleOf[h];
      fds := fds[r.proc := fds[r.proc][r.procfd := None]];
      handles := handles[r.handleI := None];
      UnlinkHandle(h);
      handleOf := handleOf - {h};
      if fileOf[r.file].first == None {
        openFiles := openFiles[fileOf[r.file].fileI := None];
        fileOf := fileOf - {r.file};
      }
    }

    /** A handle that exists is closed. */
    method RemoveHandle(h: int)
      requires Valid() && h in handleOf
      modifies this`handleOf, this`fileOf, this`handles, this`openFiles, this`fds
      ensures Valid() && Live(old(St()), h) && St() == Closed(old(St()), h)
    {
      VfsTheorems.ClosedConsistent(St(), h, next);
      CloseHandle(h);
    }

    /** `close`: the handle goes, and the file with its last handle. */
    method Close(p: int, fd: int) returns (err: int)
      requires Valid() && p in fds
      modifies this
      ensures Valid()
      ensures var h := if 0 <= fd < |old(fds)[p]| then old(fds)[p][fd] else None;
        if h == None then err == Errno.BAD_FD && Now() == old(Now())
        else err == Errno.SUCCESS && Live(old(St()), h.value) && Now() == Apply(old(Now()), Step.Close(h.value))
    {
      var o := HandleByFd(p, fd);
      if o == None { return Errno.BAD_FD; }
      RemoveHandle(o.value);
      err := Errno.SUCCESS;
    }

    /** The second half of `duplicate_fd`: a copy of the handle joins it. */
    method CopyHandle(src: int, handleI: int, fd: int)
      requires Valid() && src in handleOf && Free(St(), handleI, handleOf[src].proc, fd) && handleI == FirstFree(handles, 0)
      modifies this
      ensures var t, step := old(Now()), Duplicate(src, fd);
        && Enabled(t, step) && Now() == Apply(t, step)
        && (Valid() <==> t.s.fileOf[t.s.handleOf[src].file].last == Some(src))
    {
      ghost var lists :| Ok(St(), lists);
      VfsTheorems.HandleFacts(St(), lists, src);
      VfsTheorems.LastHandle(St(), lists, handleOf[src].file);
      DuplicateKeeps(Now(), src, fd);
      var h := next;
      next := next + 1;
      AddHandle(h, handleOf[src].(handleI := handleI, procfd := fd));
    }

    /**
      `duplicate_fd`. The tables can be used afterwards exactly when the source
      is the last handle of its file.
     */
    method DuplicateFd(p: int, dest: int, fd: int) returns (r: int, ghost src: Option<int>)
      requires Valid() && p in fds
      modifies this
      ensures src == if 0 <= fd < |old(fds)[p]| then old(fds)[p][fd] else None
      ensures r == if src == None then Errno.BAD_FD
                   else if FirstFree(old(handles), 0) < 0 then FirstFree(old(handles), 0)
                   else PickFd(old(St()), p, dest)
      ensures r < 0 ==> Valid() && Now() == old(Now())
      ensures r >= 0 ==>
        var t, h := old(Now()), src.value;
        && Enabled(t, Duplicate(h, r)) && t.s.handleOf[h].proc == p && Now() == Apply(t, Duplicate(h, r))
        && (Valid() <==> t.s.fileOf[t.s.handleOf[h].file].last == Some(h))
    {
      src := if 0 <= fd < |fds[p]| then fds[p][fd] else None;
      var o := HandleByFd(p, fd);
      if o == None { return Errno.BAD_FD, src; }
      var handleI := FindFree(handles, 0);
      if handleI < 0 { r := handleI; return; }
      r := ChooseFd(p, dest);
      if r < 0 { return; }
      CopyHandle(o.value, handleI, r);
    }

    /**
      `transplant_fd`. The tables can be used afterwards exactly when the
      descriptor of the other process was free. `busy` says that the handle is
      in use at the moment.
     */
    method TransplantFd(p: int, dst: int, dstfd: int, srcfd: int, busy: bool) returns (err: int, ghost h: Option<int>)
      requires Valid() && p in fds && dst in fds && 0 <= dstfd < |fds[dst]|
      modifies this`handleOf, this`fds
      ensures h == if 0 <= srcfd < |old(fds)[p]| then old(fds)[p][srcfd] else None
      ensures err == if h == None then Errno.BAD_FD else if busy then Errno.TIMEOUT else Errno.SUCCESS
      ensures err != Errno.SUCCESS ==> Now() == old(Now())
      ensures err == Errno.SUCCESS ==>
        var t, step := old(Now()), Transplant(h.value, dst, dstfd);
        && Enabled(t, step) && Now() == Apply(t, step)
        && (Valid() <==> VfsTheorems.Vacant(t.s, h.value, dst, dstfd))
    {
      h := if 0 <= srcfd < |fds[p]| then fds[p][srcfd] else None;
      var o := HandleByFd(p, srcfd);
      if o == None { return Errno.BAD_FD, h; }
      if busy { return Errno.TIMEOUT, h; }
      TransplantKeeps(Now(), o.value, dst, dstfd);
      fds := fds[p := fds[p][srcfd := None]];
      fds := fds[dst := fds[dst][dstfd := Some(o.value)]];
      handleOf := handleOf[o.value := handleOf[o.value].(proc := dst)];
      handleOf := handleOf[o.value := handleOf[o.value].(procfd := dstfd)];
      err := Errno.SUCCESS;
    }

    /** A file enters all the tables with two handles. */
    method AddPair(f: int, file: File, h: int, r: Handle, g: int, q: Handle)
      requires Free(St(), r.handleI, r.proc, r.procfd) && Free(St(), q.handleI, q.proc, q.procfd)
      requires 0 <= file.fileI < |openFiles| && r.proc == q.proc && h != g
      modifies this`handleOf, this`fileOf, this`handles, this`openFiles, this`fds
      ensures St() == OpenPair(old(St()), f, file, h, r, g, q)
    {
      fileOf := fileOf[f := file.(first := Some(h), last := Some(g))];
      handleOf := handleOf[h := r.(next := Some(g))];
      handleOf := handleOf[g := q.(prev := Some(h))];
      openFiles := openFiles[file.fileI := Some(f)];
      handles := handles[r.handleI := Some(h)];
      handles := handles[q.handleI := Some(g)];
      fds := fds[r.proc := fds[r.proc][r.procfd := Some(h)]];
      fds := fds[q.proc := fds[q.proc][q.procfd := Some(g)]];
    }

    /** The second half of `make_pipe`: a file with a reading and a writing end. */
    method AddPipe(fileI: int, inI: int, outI: int, p: int, inFd: int, outFd: int)
      requires Valid() && PipeSlots(St(), fileI, inI, outI, p, inFd, outFd)
      modifies this
      ensures Valid() && next == old(next) + 3
      ensures St() == WithPipe(old(St()), old(next), fileI, inI, outI, p, inFd, outFd)
    {
      var f, h, g := next, next + 1, next + 2;
      var file := File(fileI, Pipe(f), PipeEnd, 0x180, None, None);
      var r, q := Handle(inI, f, READ, 0, p, inFd, None, None), Handle(outI, f, WRITE, 0, p, outFd, None, None);
      VfsTheorems.PairConsistent(St(), f, file, h, r, g, q);
      next := next + 3;
      AddPair(f, file, h, r, g, q);
    }

    /** Two free numbers at once: the first is marked as taken while the second is looked for. */
    method FindTwoFree(t: seq<Option<int>>, from: nat) returns (i: int, j: int)
      ensures i == FirstFree(t, from)
      ensures i >= 0 ==> j == FirstFree(t[i := Some(1)], from) && j != i && (j >= 0 ==> t[j] == None)
      ensures i < 0 ==> j == i
    {
      i := FindFree(t, from);
      j := i;
      if i >= 0 { j := FindFree(t[i := Some(1)], from); }
    }

    /** `make_pipe` */
    method MakePipe(p: int) returns (err: int, inFd: int, outFd: int)
      requires Valid() && p in fds
      modifies this
      ensures Valid()
      ensures err == Errno.SUCCESS || err == Errno.LIMIT
      ensures err != Errno.SUCCESS ==> Now() == old(Now())
      ensures err == Errno.LIMIT <==> FirstFree(old(openFiles), 0) < 0 || NoTwo(old(handles), 0) || NoTwo(old(fds)[p], FIRST_FD)
      ensures err == Errno.SUCCESS ==>
        var t, step := old(Now()), Step.MakePipe(p, inFd, outFd); Enabled(t, step) && Now() == Apply(t, step)
    {
      inFd, outFd := -1, -1;
      var fileI := FindFree(openFiles, 0);
      if fileI < 0 { return fileI, inFd, outFd; }
      var inI, outI := FindTwoFree(handles, 0);
      if outI < 0 { return outI, inFd, outFd; }
      inFd, outFd := FindTwoFree(fds[p], FIRST_FD);
      if outFd < 0 { return outFd, inFd, outFd; }
      AddPipe(fileI, inI, outI, p, inFd, outFd);
      err := Errno.SUCCESS;
    }

    /** A pipe whose reading end is duplicated at once: if both calls succeed, the tables are broken. */
    method DuplicatePipe(p: int) returns (err: int, fd: int)
      requires Valid() && p in fds
      modifies this
      ensures err == Errno.SUCCESS && 0 <= fd <==> !Valid()
    {
      ghost var t := Now();
      var inFd, outFd;
      fd := -1;
      err, inFd, outFd := MakePipe(p);
      if err == Errno.SUCCESS {
        EndsOf(t, p, inFd, outFd);
        ghost var src;
        fd, src := DuplicateFd(p, -1, inFd);
      }
    }
  }
}
