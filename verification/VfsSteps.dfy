/**
  The operations on the tables as steps, and their runs. The tables stay
  consistent on exactly those runs on which only last handles are duplicated,
  and handles are moved to free descriptors only.
 */
module VfsSteps {
  import opened Basics
  import opened Lists
  import opened VfsSpec
  import Errno
  import VfsTheorems

  /** The first free slot from `from` on, or an error. */
  function FirstFree(t: seq<Option<int>>, from: nat): (i: int)
    ensures i == Errno.LIMIT || (from <= i < |t| && t[i] == None && forall j :: from <= j < i ==> t[j].Some?)
    ensures i == Errno.LIMIT ==> forall j :: from <= j < |t| ==> t[j].Some?
    decreases |t| - from
  {
    if from >= |t| then Errno.LIMIT else if t[from] == None then from else FirstFree(t, from + 1)
  }

  const READ := Flags(true, false, false, false, false, false)
  const WRITE := Flags(false, true, false, false, false, false)

  /** A handle as it is made, before it is linked. */
  function NewHandle(s: State, f: int, flags: Flags, p: int, fd: int): Handle {
    Handle(FirstFree(s.handles, 0), f, flags, 0, p, fd, None, None)
  }

  /** The file of the handle has a last one, and there are free slots for a copy. */
  predicate Duplicable(s: State, h: int, i: int, fd: int)
    requires h in s.handleOf
  {
    && Free(s, i, s.handleOf[h].proc, fd) && s.handleOf[h].file in s.fileOf
    && s.fileOf[s.handleOf[h].file].last.Some? && s.fileOf[s.handleOf[h].file].last.value in s.handleOf
  }

  /** Free slots for a new pipe. */
  predicate PipeSlots(s: State, fileI: int, inI: int, outI: int, p: int, inFd: int, outFd: int) {
    && 0 <= fileI < |s.openFiles| && s.openFiles[fileI] == None
    && Free(s, inI, p, inFd) && Free(s, outI, p, outFd) && inI != outI && inFd != outFd
  }

  /** The tables with pipe n, whose handles are n + 1, for reading, and n + 2, for writing. */
  function WithPipe(s: State, n: int, fileI: int, inI: int, outI: int, p: int, inFd: int, outFd: int): State
    requires PipeSlots(s, fileI, inI, outI, p, inFd, outFd)
  {
    OpenPair(s, n, File(fileI, Pipe(n), PipeEnd, 0x180, None, None),
      n + 1, Handle(inI, n, READ, 0, p, inFd, None, None), n + 2, Handle(outI, n, WRITE, 0, p, outFd, None, None))
  }

  /** The flags that others imply. */
  function Implied(f: Flags): Flags {
    f.(read := f.read || f.dir, write := f.write || f.append || f.truncate || f.create)
  }

  /** Someone may read: the user, the group, or others. */
  predicate Readable(perm: int) { Bit(perm, 0x100) || Bit(perm, 0x20) || Bit(perm, 0x4) }

  predicate Writable(perm: int) { Bit(perm, 0x80) || Bit(perm, 0x10) || Bit(perm, 0x2) }

  /** The checks of type and permission; 0 when the file may be opened so. */
  function Check(ftype: Type, perm: int, f: Flags): int {
    if ftype == Dir && !f.dir then Errno.TYPE
    else if ftype != Dir && f.dir then Errno.TYPE
    else if ftype == Dir && f.write then Errno.TYPE
    else if f.read && !Readable(perm) then Errno.PERM
    else if f.write && !Writable(perm) then Errno.PERM
    else Errno.SUCCESS
  }

  // ---------------------------------------------------------------------
  // Steps
  // ---------------------------------------------------------------------

  /** The tables, and the next number for a handle or a file. */
  datatype Tables = Tables(s: State, next: int)

  /**
    What a call does: nothing, when it fails, or one of the six changes. An
    opened file was known or not.
   */
  datatype Step =
    | Nothing
    | OpenKnown(f: int, flags: Flags, p: int, fd: int)
    | OpenNew(path: Path, ftype: Type, perm: int, flags: Flags, p: int, fd: int)
    | Close(h: int)
    | Duplicate(h: int, fd: int)
    | Transplant(h: int, p: int, fd: int)
    | MakePipe(p: int, inFd: int, outFd: int)

  /** The handle slots of a new pipe. */
  function PipeHandles(s: State): (int, int) {
    var i := FirstFree(s.handles, 0);
    (i, if i < 0 then i else FirstFree(s.handles[i := Some(1)], 0))
  }

  /** What a call has checked before it changes anything. */
  ghost predicate Enabled(t: Tables, step: Step) {
    var s := t.s;
    match step
    case Nothing => true
    case OpenKnown(f, flags, p, fd) =>
      && f in s.fileOf && Free(s, FirstFree(s.handles, 0), p, fd)
      && Check(s.fileOf[f].ftype, s.fileOf[f].perm, Implied(flags)) == Errno.SUCCESS
      && s.fileOf[f].last.Some? && s.fileOf[f].last.value in s.handleOf
    case OpenNew(path, ftype, perm, flags, p, fd) =>
      && Free(s, FirstFree(s.handles, 0), p, fd) && 0 <= FirstFree(s.openFiles, 0) < |s.openFiles|
      && Check(ftype, perm, Implied(flags)) == Errno.SUCCESS
      && path.Named? && forall g :: g in s.fileOf ==> s.fileOf[g].path != path
    case Close(h) => Live(s, h)
    case Duplicate(h, fd) => h in s.handleOf && Duplicable(s, h, FirstFree(s.handles, 0), fd)
    case Transplant(h, p, fd) => h in s.handleOf && InFd(s, h) && p in s.fds && 0 <= fd < |s.fds[p]|
    case MakePipe(p, inFd, outFd) =>
      PipeSlots(s, FirstFree(s.openFiles, 0), PipeHandles(s).0, PipeHandles(s).1, p, inFd, outFd)
  }

  ghost function Apply(t: Tables, step: Step): Tables
    requires Enabled(t, step)
  {
    var s, n := t.s, t.next;
    match step
    case Nothing => t
    case OpenKnown(f, flags, p, fd) => Tables(Append(s, n, NewHandle(s, f, Implied(flags), p, fd)), n + 1)
    case OpenNew(path, ftype, perm, flags, p, fd) =>
      Tables(OpenWith(s, n + 1, File(FirstFree(s.openFiles, 0), path, ftype, perm, None, None),
                      n, NewHandle(s, n + 1, Implied(flags), p, fd)), n + 2)
    case Close(h) => Tables(Closed(s, h), n)
    case Duplicate(h, fd) => Tables(Append(s, n, VfsTheorems.Copy(s.handleOf[h], FirstFree(s.handles, 0), fd)), n + 1)
    case Transplant(h, p, fd) => Tables(Moved(s, h, p, fd), n)
    case MakePipe(p, inFd, outFd) =>
      Tables(WithPipe(s, n, FirstFree(s.openFiles, 0), PipeHandles(s).0, PipeHandles(s).1, p, inFd, outFd), n + 3)
  }

  /** What a caller has to see to, as no call checks it. */
  ghost predicate Careful(t: Tables, step: Step)
    requires Enabled(t, step)
  {
    match step
    case Duplicate(h, _) => t.s.fileOf[t.s.handleOf[h].file].last == Some(h)
    case Transplant(h, p, fd) => VfsTheorems.Vacant(t.s, h, p, fd)
    case _ => true
  }

  ghost predicate Sound(t: Tables) { Consistent(t.s) && Numbered(t.s, t.next) }

  // ---------------------------------------------------------------------
  // One step
  // ---------------------------------------------------------------------

  lemma OpenKeeps(t: Tables, step: Step)
    requires Sound(t) && Enabled(t, step) && (step.OpenKnown? || step.OpenNew?)
    ensures Sound(Apply(t, step))
  {
    match step
    case OpenKnown(f, flags, p, fd) =>
      VfsTheorems.AppendConsistent(t.s, t.next, NewHandle(t.s, f, Implied(flags), p, fd));
    case OpenNew(path, ftype, perm, flags, p, fd) =>
      var f := t.next + 1;
      VfsTheorems.OpenWithConsistent(t.s, f, File(FirstFree(t.s.openFiles, 0), path, ftype, perm, None, None),
        t.next, NewHandle(t.s, f, Implied(flags), p, fd));
  }

  lemma PipeKeeps(t: Tables, p: int, inFd: int, outFd: int)
    requires Sound(t) && Enabled(t, MakePipe(p, inFd, outFd))
    ensures Sound(Apply(t, MakePipe(p, inFd, outFd)))
  {
    var s, f := t.s, t.next;
    var (i, j) := PipeHandles(s);
    VfsTheorems.PairConsistent(s, f, File(FirstFree(s.openFiles, 0), Pipe(f), PipeEnd, 0x180, None, None),
      f + 1, Handle(i, f, READ, 0, p, inFd, None, None), f + 2, Handle(j, f, WRITE, 0, p, outFd, None, None));
  }

  lemma DuplicateKeeps(t: Tables, h: int, fd: int)
    requires Sound(t) && Enabled(t, Duplicate(h, fd))
    ensures Sound(Apply(t, Duplicate(h, fd))) <==> Careful(t, Duplicate(h, fd))
  {
    var i := FirstFree(t.s.handles, 0);
    VfsTheorems.DuplicateIsConsistent(t.s, h, t.next, i, fd);
    VfsTheorems.AppendNumbered(t.s, t.next, VfsTheorems.Copy(t.s.handleOf[h], i, fd));
  }

  lemma TransplantKeeps(t: Tables, h: int, p: int, fd: int)
    requires Sound(t) && Enabled(t, Transplant(h, p, fd))
    ensures Sound(Apply(t, Transplant(h, p, fd))) <==> Careful(t, Transplant(h, p, fd))
  {
    VfsTheorems.MoveIsConsistent(t.s, h, p, fd);
    VfsTheorems.MovedNumbered(t.s, h, p, fd, t.next);
  }

  /** A step keeps the tables consistent exactly when the caller is careful. */
  lemma StepKeeps(t: Tables, step: Step)
    requires Sound(t) && Enabled(t, step)
    ensures Sound(Apply(t, step)) <==> Careful(t, step)
  {
    match step
    case Nothing =>
    case OpenKnown(_, _, _, _) => OpenKeeps(t, step);
    case OpenNew(_, _, _, _, _, _) => OpenKeeps(t, step);
    case Close(h) => VfsTheorems.ClosedConsistent(t.s, h, t.next);
    case Duplicate(h, fd) => DuplicateKeeps(t, h, fd);
    case Transplant(h, p, fd) => TransplantKeeps(t, h, p, fd);
    case MakePipe(p, inFd, outFd) => PipeKeeps(t, p, inFd, outFd);
  }

  /** The reading end of a new pipe, behind its descriptor, is not the last handle of the pipe. */
  lemma EndsOf(t: Tables, p: int, inFd: int, outFd: int)
    requires Sound(t) && Enabled(t, MakePipe(p, inFd, outFd))
    ensures var s, h := Apply(t, MakePipe(p, inFd, outFd)).s, t.next + 1;
      && p in s.fds && 0 <= inFd < |s.fds[p]| && s.fds[p][inFd] == Some(h)
      && h in s.handleOf && s.handleOf[h].file in s.fileOf && s.fileOf[s.handleOf[h].file].last == Some(h + 1)
  {}

  // ---------------------------------------------------------------------
  // Runs
  // ---------------------------------------------------------------------

  ghost predicate EnabledRun(t: Tables, steps: seq<Step>)
    decreases |steps|
  {
    steps == [] || (Enabled(t, steps[0]) && EnabledRun(Apply(t, steps[0]), steps[1..]))
  }

  ghost function Run(t: Tables, steps: seq<Step>): Tables
    requires EnabledRun(t, steps)
    decreases |steps|
  {
    if steps == [] then t else Run(Apply(t, steps[0]), steps[1..])
  }

  ghost predicate CarefulRun(t: Tables, steps: seq<Step>)
    requires EnabledRun(t, steps)
    decreases |steps|
  {
    steps == [] || (Careful(t, steps[0]) && CarefulRun(Apply(t, steps[0]), steps[1..]))
  }

  /** The tables are consistent at every point of the run. */
  ghost predicate SoundRun(t: Tables, steps: seq<Step>)
    requires EnabledRun(t, steps)
    decreases |steps|
  {
    Sound(t) && (steps == [] || SoundRun(Apply(t, steps[0]), steps[1..]))
  }

  lemma {:induction false} RunKeeps(t: Tables, steps: seq<Step>)
    requires Sound(t) && EnabledRun(t, steps)
    ensures SoundRun(t, steps) <==> CarefulRun(t, steps)
    ensures CarefulRun(t, steps) ==> Sound(Run(t, steps))
    decreases |steps|
  {
    if steps != [] {
      StepKeeps(t, steps[0]);
      if Careful(t, steps[0]) { RunKeeps(Apply(t, steps[0]), steps[1..]); }
      else { assert !SoundRun(Apply(t, steps[0]), steps[1..]); }
    }
  }

  ghost function Start(procs: set<int>): Tables { Tables(VfsTheorems.Empty(procs), 0) }

  /**
    On every run of the operations from empty tables: these stay consistent at
    every point if and only if each duplicate is one of a last handle, and each
    transplant goes to a free descriptor.
   */
  lemma RunConsistent(procs: set<int>, steps: seq<Step>)
    requires EnabledRun(Start(procs), steps)
    ensures SoundRun(Start(procs), steps) <==> CarefulRun(Start(procs), steps)
  {
    VfsTheorems.EmptyConsistent(procs);
    RunKeeps(Start(procs), steps);
  }

  /**
    After every such run each handle is in one global slot and one descriptor,
    and a file is open if and only if a handle refers to it.
   */
  lemma RunOnePlaceEach(procs: set<int>, steps: seq<Step>, h: int, f: int)
    requires EnabledRun(Start(procs), steps) && CarefulRun(Start(procs), steps)
    requires h in Run(Start(procs), steps).s.handleOf
    ensures var s := Run(Start(procs), steps).s;
      && (exists i, p, fd :: VfsTheorems.OnlySlots(s, h, i, p, fd))
      && (f in s.fileOf <==> exists x :: VfsTheorems.RefersTo(s, x, f))
  {
    VfsTheorems.EmptyConsistent(procs);
    RunKeeps(Start(procs), steps);
    VfsTheorems.OnePlaceEach(Run(Start(procs), steps).s, h, f);
  }
}
