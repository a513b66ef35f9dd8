/**
  Who may open what, and what the steps leave alone: the meaning of the checks
  of `open` in terms of file modes, and its consequences for all handles.
 */
module VfsAccess {
  import opened Basics
  import opened Lists
  import opened VfsSpec
  import opened VfsSteps
  import VfsTheorems

  /** Some octal digit of the mode has the bit for reading, 4. */
  predicate SomeoneReads(perm: int) { perm / 64 % 8 >= 4 || perm / 8 % 8 >= 4 || perm % 8 >= 4 }

  /** Some octal digit of the mode has the bit for writing, 2. */
  predicate SomeoneWrites(perm: int) { perm / 64 % 4 >= 2 || perm / 8 % 4 >= 2 || perm % 4 >= 2 }

  /** What the requested flags amount to. */
  predicate AsksToRead(f: Flags) { f.read || f.dir }

  predicate AsksToWrite(f: Flags) { f.write || f.append || f.truncate || f.create }

  lemma ModeBits(perm: int)
    ensures Readable(perm) == SomeoneReads(perm) && Writable(perm) == SomeoneWrites(perm)
  {
    Digit(perm, 64);
    Digit(perm, 8);
    Digit(perm, 1);
  }

  /** The bits of weight 4 and 2 of the octal digit of weight w. */
  lemma Digit(perm: int, w: nat)
    requires w == 64 || w == 8 || w == 1
    ensures Bit(perm, 4 * w) <==> perm / w % 8 >= 4
    ensures Bit(perm, 2 * w) <==> perm / w % 4 >= 2
  {
    var d := perm / w;
    assert perm / (4 * w) == d / 4 && perm / (2 * w) == d / 2;
    BitFour(d);
    BitTwo(d);
  }

  lemma BitFour(d: int)
    ensures d / 4 % 2 == 1 <==> d % 8 >= 4
  {
    var e := d / 8;
    assert d / 4 == if d % 8 >= 4 then 2 * e + 1 else 2 * e;
  }

  lemma BitTwo(d: int)
    ensures d / 2 % 2 == 1 <==> d % 4 >= 2
  {
    var e := d / 4;
    assert d / 2 == if d % 4 >= 2 then 2 * e + 1 else 2 * e;
  }

  /**
    When a file may be opened (0), and with which error number it may not:
    ERR_type (-10) if the flag for directories does not fit, or a directory is to
    be written; then ERR_perm (-12) if nobody may read, or write, as requested.
   */
  function Refusal(ftype: Type, perm: int, f: Flags): int {
    if (ftype == Dir) != f.dir then -10
    else if ftype == Dir && AsksToWrite(f) then -10
    else if (AsksToRead(f) && !SomeoneReads(perm)) || (AsksToWrite(f) && !SomeoneWrites(perm)) then -12
    else 0
  }

  lemma CheckCases(ftype: Type, perm: int, f: Flags)
    ensures Check(ftype, perm, Implied(f)) == Refusal(ftype, perm, f)
  {
    ModeBits(perm);
  }

  /** The flags of a handle fit the type and the mode of its file. */
  predicate Permitted(h: Flags, ftype: Type, perm: int) {
    && (h.dir <==> ftype == Dir) && (h.dir ==> h.read && !h.write)
    && (h.append || h.truncate || h.create ==> h.write)
    && (h.read ==> SomeoneReads(perm)) && (h.write ==> SomeoneWrites(perm))
  }

  predicate HandlePermitted(s: State, h: int)
    requires h in s.handleOf
  {
    s.handleOf[h].file in s.fileOf &&
    Permitted(s.handleOf[h].flags, s.fileOf[s.handleOf[h].file].ftype, s.fileOf[s.handleOf[h].file].perm)
  }

  ghost predicate AllPermitted(s: State) { forall h :: h in s.handleOf ==> HandlePermitted(s, h) }

  // ---------------------------------------------------------------------
  // What a step leaves alone
  // ---------------------------------------------------------------------

  /** The handle is the same but for its links. */
  predicate Kept(s: State, t: State, h: int) {
    && h in s.handleOf && h in t.handleOf
    && t.handleOf[h].(prev := None, next := None) == s.handleOf[h].(prev := None, next := None)
  }

  /** The handle is the same but for its links and its descriptor. */
  predicate MovedTo(s: State, t: State, h: int, p: int, fd: int) {
    && h in s.handleOf && h in t.handleOf
    && t.handleOf[h].(prev := None, next := None)
       == s.handleOf[h].(prev := None, next := None, proc := p, procfd := fd)
  }

  predicate FileKept(s: State, t: State, f: int) {
    f in s.fileOf && f in t.fileOf ==> t.fileOf[f].(first := None, last := None) == s.fileOf[f].(first := None, last := None)
  }

  predicate FdKept(s: State, t: State, p: int, fd: int) {
    p in s.fds && p in t.fds && 0 <= fd < |s.fds[p]| && fd < |t.fds[p]| ==> t.fds[p][fd] == s.fds[p][fd]
  }

  /** The descriptors that a step is about. */
  predicate Touches(s: State, step: Step, p: int, fd: int) {
    match step
    case Nothing => false
    case OpenKnown(_, _, q, k) => p == q && fd == k
    case OpenNew(_, _, _, _, q, k) => p == q && fd == k
    case Close(h) => h in s.handleOf && p == s.handleOf[h].proc && fd == s.handleOf[h].procfd
    case Duplicate(h, k) => h in s.handleOf && p == s.handleOf[h].proc && fd == k
    case Transplant(h, q, k) => (p == q && fd == k) || (h in s.handleOf && p == s.handleOf[h].proc && fd == s.handleOf[h].procfd)
    case MakePipe(q, i, j) => p == q && (fd == i || fd == j)
  }

  /** What a step does to the handles that there were. */
  predicate OldHandle(s: State, t: State, step: Step, h: int)
    requires h in s.handleOf
  {
    if step == Close(h) then h !in t.handleOf
    else if step.Transplant? && step.h == h then MovedTo(s, t, h, step.p, step.fd)
    else Kept(s, t, h)
  }

  /**
    A step changes no handle but for its links, unless it closes or moves it; no
    file but for its list; and no descriptor but those that it is about.
   */
  lemma StepKeepsOthers(t: Tables, step: Step)
    requires Sound(t) && Enabled(t, step)
    ensures var u := Apply(t, step);
      && (forall h :: h in t.s.handleOf ==> OldHandle(t.s, u.s, step, h))
      && (forall f :: FileKept(t.s, u.s, f))
      && (forall p, fd :: !Touches(t.s, step, p, fd) ==> FdKept(t.s, u.s, p, fd))
  {
    var s, u := t.s, Apply(t, step);
    forall h | h in s.handleOf ensures OldHandle(s, u.s, step, h) { KeepsHandle(t, step, h); }
    forall f ensures FileKept(s, u.s, f) { KeepsFile(t, step, f); }
    forall p, fd | !Touches(s, step, p, fd) ensures FdKept(s, u.s, p, fd) { KeepsFd(t, step, p, fd); }
  }

  lemma KeepsHandle(t: Tables, step: Step, h: int)
    requires Sound(t) && Enabled(t, step) && h in t.s.handleOf
    ensures OldHandle(t.s, Apply(t, step).s, step, h)
  {
    assert h < t.next;
    if step.Close? { ClosedKeeps(t.s, step.h, h); }
  }

  lemma ClosedKeeps(s: State, x: int, h: int)
    requires Live(s, x) && h in s.handleOf
    ensures if h == x then h !in Closed(s, x).handleOf else Kept(s, Closed(s, x), h)
  {
    var u := Unlinked(s, x);
    assert Kept(s, u, h);
  }

  lemma KeepsFile(t: Tables, step: Step, f: int)
    requires Sound(t) && Enabled(t, step)
    ensures FileKept(t.s, Apply(t, step).s, f)
  {
    if f in t.s.fileOf { assert f < t.next; }
  }

  lemma KeepsFd(t: Tables, step: Step, p: int, fd: int)
    requires Sound(t) && Enabled(t, step) && !Touches(t.s, step, p, fd)
    ensures FdKept(t.s, Apply(t, step).s, p, fd)
  {}

  // ---------------------------------------------------------------------
  // Permissions over runs
  // ---------------------------------------------------------------------

  /** The handles that are new after a step, and the flags that they have. */
  lemma NewPermitted(t: Tables, step: Step, h: int)
    requires Sound(t) && Enabled(t, step) && Careful(t, step) && AllPermitted(t.s)
    requires h in Apply(t, step).s.handleOf && h !in t.s.handleOf
    ensures HandlePermitted(Apply(t, step).s, h)
  {
    match step
    case OpenKnown(f, flags, _, _) => CheckCases(t.s.fileOf[f].ftype, t.s.fileOf[f].perm, flags);
    case OpenNew(_, ftype, perm, flags, _, _) => CheckCases(ftype, perm, flags);
    case Duplicate(x, _) => assert HandlePermitted(t.s, x);
    case MakePipe(_, _, _) => assert SomeoneReads(0x180) && SomeoneWrites(0x180);
    case _ =>
  }

  lemma StepPermitted(t: Tables, step: Step)
    requires Sound(t) && Enabled(t, step) && Careful(t, step) && AllPermitted(t.s)
    ensures AllPermitted(Apply(t, step).s)
  {
    var u := Apply(t, step);
    StepKeepsOthers(t, step);
    StepKeeps(t, step);
    forall h | h in u.s.handleOf ensures HandlePermitted(u.s, h) {
      if h in t.s.handleOf {
        assert HandlePermitted(t.s, h) && OldHandle(t.s, u.s, step, h);
        InOpenFile(u, h);
        assert FileKept(t.s, u.s, t.s.handleOf[h].file);
      } else {
        NewPermitted(t, step, h);
      }
    }
  }

  lemma InOpenFile(t: Tables, h: int)
    requires Sound(t) && h in t.s.handleOf
    ensures t.s.handleOf[h].file in t.s.fileOf
  {
    var lists :| Ok(t.s, lists);
    assert InList(t.s, lists, h);
  }

  lemma {:induction false} PermittedAlong(t: Tables, steps: seq<Step>)
    requires Sound(t) && EnabledRun(t, steps) && CarefulRun(t, steps) && AllPermitted(t.s)
    ensures AllPermitted(Run(t, steps).s)
    decreases |steps|
  {
    if steps != [] {
      StepKeeps(t, steps[0]);
      StepPermitted(t, steps[0]);
      PermittedAlong(Apply(t, steps[0]), steps[1..]);
    }
  }

  /**
    After every run every handle has only what the type and the mode of its file
    permit: directories are read only and files never opened as directories.
   */
  lemma RunPermitted(procs: set<int>, steps: seq<Step>)
    requires EnabledRun(Start(procs), steps) && CarefulRun(Start(procs), steps)
    ensures AllPermitted(Run(Start(procs), steps).s)
  {
    VfsTheorems.EmptyConsistent(procs);
    PermittedAlong(Start(procs), steps);
  }

  // ---------------------------------------------------------------------
  // What open and make_pipe give
  // ---------------------------------------------------------------------

  /** The descriptor that was asked for, or else the lowest free one from 3 on. */
  ghost predicate Chosen(s: State, p: int, fd: int, r: int) {
    && p in s.fds && 0 <= r < |s.fds[p]| && s.fds[p][r] == None
    && if fd >= 0 then r == fd else 3 <= r && forall k :: 3 <= k < r ==> s.fds[p][k].Some?
  }

  /**
    Descriptor r of process p is a new handle at the beginning of the file with
    the path, with the flags that were asked for and those they imply.
   */
  ghost predicate Opened(s: State, t: State, p: int, path: Path, f: Flags, r: int) {
    && p in t.fds && 0 <= r < |t.fds[p]| && t.fds[p][r].Some?
    && var h := t.fds[p][r].value;
    && h in t.handleOf && h !in s.handleOf && t.handleOf[h].proc == p && t.handleOf[h].procfd == r && t.handleOf[h].pos == 0
    && t.handleOf[h].file in t.fileOf && t.fileOf[t.handleOf[h].file].path == path
    && t.handleOf[h].flags == Flags(AsksToRead(f), AsksToWrite(f), f.append, f.truncate, f.create, f.dir)
    && Permitted(t.handleOf[h].flags, t.fileOf[t.handleOf[h].file].ftype, t.fileOf[t.handleOf[h].file].perm)
  }

  lemma OpenKnownGives(t: Tables, f: int, flags: Flags, p: int, fd: int)
    requires Sound(t) && Enabled(t, OpenKnown(f, flags, p, fd))
    ensures Opened(t.s, Apply(t, OpenKnown(f, flags, p, fd)).s, p, t.s.fileOf[f].path, flags, fd)
  {
    CheckCases(t.s.fileOf[f].ftype, t.s.fileOf[f].perm, flags);
    assert t.next !in t.s.handleOf;
  }

  lemma OpenNewGives(t: Tables, path: Path, ftype: Type, perm: int, flags: Flags, p: int, fd: int)
    requires Sound(t) && Enabled(t, OpenNew(path, ftype, perm, flags, p, fd))
    ensures var s := Apply(t, OpenNew(path, ftype, perm, flags, p, fd)).s;
      && Opened(t.s, s, p, path, flags, fd)
      && s.fileOf[s.handleOf[s.fds[p][fd].value].file].ftype == ftype
      && s.fileOf[s.handleOf[s.fds[p][fd].value].file].perm == perm
  {
    CheckCases(ftype, perm, flags);
    assert t.next !in t.s.handleOf;
  }

  /** A copy of a handle is for the same file, with the same flags and position; a moved handle keeps them. */
  lemma CopyAndMoveKeep(t: Tables, h: int, fd: int, p: int, k: int)
    requires Sound(t)
    ensures Enabled(t, Duplicate(h, fd)) ==>
      var s, q := Apply(t, Duplicate(h, fd)).s, t.s.handleOf[h].proc;
      && s.fds[q][fd] == Some(t.next) && t.next !in t.s.handleOf && t.next in s.handleOf
      && s.handleOf[t.next].file == t.s.handleOf[h].file && s.handleOf[t.next].flags == t.s.handleOf[h].flags
      && s.handleOf[t.next].pos == t.s.handleOf[h].pos
    ensures Enabled(t, Transplant(h, p, k)) ==>
      Apply(t, Transplant(h, p, k)).s.fds[p][k] == Some(h) && MovedTo(t.s, Apply(t, Transplant(h, p, k)).s, h, p, k)
  {}

  /** One end of a new pipe can be read and not written, the other one written and not read; both are at the same file. */
  lemma PipeEnds(t: Tables, p: int, inFd: int, outFd: int)
    requires Sound(t) && Enabled(t, MakePipe(p, inFd, outFd))
    ensures var s := Apply(t, MakePipe(p, inFd, outFd)).s;
      && p in s.fds && 0 <= inFd < |s.fds[p]| && 0 <= outFd < |s.fds[p]| && s.fds[p][inFd].Some? && s.fds[p][outFd].Some?
      && var h, g := s.fds[p][inFd].value, s.fds[p][outFd].value;
      && h != g && h in s.handleOf && g in s.handleOf && h !in t.s.handleOf && g !in t.s.handleOf
      && s.handleOf[h].flags.read && !s.handleOf[h].flags.write && s.handleOf[g].flags.write && !s.handleOf[g].flags.read
      && s.handleOf[h].file == s.handleOf[g].file && s.handleOf[h].file in s.fileOf && s.handleOf[h].file !in t.s.fileOf
  {
    assert t.next !in t.s.fileOf && t.next + 1 !in t.s.handleOf && t.next + 2 !in t.s.handleOf;
  }
}
