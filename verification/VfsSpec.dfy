/**
  The tables of src/kernel/src/filesystem/vfs.cc: the global handle table, the
  table of open files, the descriptors of each process, and the doubly linked
  list of handles of each file. Handles and files are numbered; the number
  stands for the pointer.
 */
module VfsSpec {
  import opened Lists

  const MAX_OPEN_FILES := 256
  const MAX_HANDLES := 256
  const MAX_PROC_FILES := 32
  const FIRST_FD := 3

  datatype Path = Named(name: string) | Pipe(id: int)
  datatype Type = Regular | Dir | Dev | PipeEnd

  datatype Flags = Flags(read: bool, write: bool, append: bool, truncate: bool, create: bool, dir: bool)

  /** `file_handle_t` */
  datatype Handle = Handle(handleI: int, file: int, flags: Flags, pos: nat, proc: int, procfd: int,
                           prev: Option<int>, next: Option<int>)

  /** `file_t`, with what is needed of its inode. */
  datatype File = File(fileI: int, path: Path, ftype: Type, perm: int, first: Option<int>, last: Option<int>)

  datatype State = State(handleOf: map<int, Handle>, fileOf: map<int, File>,
                         handles: seq<Option<int>>, openFiles: seq<Option<int>>, fds: map<int, seq<Option<int>>>)

  // ---------------------------------------------------------------------
  // Consistency
  // ---------------------------------------------------------------------

  predicate SlotOk(s: State, i: int)
    requires 0 <= i < |s.handles|
  {
    s.handles[i].Some? ==> s.handles[i].value in s.handleOf && s.handleOf[s.handles[i].value].handleI == i
  }

  predicate InSlot(s: State, h: int)
    requires h in s.handleOf
  {
    0 <= s.handleOf[h].handleI < |s.handles| && s.handles[s.handleOf[h].handleI] == Some(h)
  }

  /** Each handle is in exactly one slot of the global table. */
  ghost predicate HandlesOk(s: State) {
    && |s.handles| == MAX_HANDLES
    && (forall i :: 0 <= i < |s.handles| ==> SlotOk(s, i))
    && (forall h :: h in s.handleOf ==> InSlot(s, h))
  }

  predicate FdOk(s: State, p: int, fd: int)
    requires p in s.fds && 0 <= fd < |s.fds[p]|
  {
    s.fds[p][fd].Some? ==>
      && s.fds[p][fd].value in s.handleOf
      && s.handleOf[s.fds[p][fd].value].proc == p && s.handleOf[s.fds[p][fd].value].procfd == fd
  }

  predicate InFd(s: State, h: int)
    requires h in s.handleOf
  {
    var p, fd := s.handleOf[h].proc, s.handleOf[h].procfd;
    p in s.fds && 0 <= fd < |s.fds[p]| && s.fds[p][fd] == Some(h)
  }

  /** Each handle is in exactly one descriptor of one process. */
  ghost predicate FdsOk(s: State) {
    && (forall p :: p in s.fds ==> |s.fds[p]| == MAX_PROC_FILES)
    && (forall p, fd :: p in s.fds && 0 <= fd < |s.fds[p]| ==> FdOk(s, p, fd))
    && (forall h :: h in s.handleOf ==> InFd(s, h))
  }

  ghost predicate PathsDiffer(s: State, f: int, g: int)
    requires f in s.fileOf && g in s.fileOf
  {
    s.fileOf[f].path != s.fileOf[g].path
  }

  predicate FileSlotOk(s: State, i: int)
    requires 0 <= i < |s.openFiles|
  {
    s.openFiles[i].Some? ==> s.openFiles[i].value in s.fileOf && s.fileOf[s.openFiles[i].value].fileI == i
  }

  predicate InFileSlot(s: State, f: int)
    requires f in s.fileOf
  {
    0 <= s.fileOf[f].fileI < |s.openFiles| && s.openFiles[s.fileOf[f].fileI] == Some(f)
  }

  /** Each open file is in exactly one slot of its table, and no two have the same path. */
  ghost predicate FilesOk(s: State) {
    && |s.openFiles| == MAX_OPEN_FILES
    && (forall i :: 0 <= i < |s.openFiles| ==> FileSlotOk(s, i))
    && (forall f :: f in s.fileOf ==> InFileSlot(s, f))
    && (forall f, g :: f in s.fileOf && g in s.fileOf && f != g ==> PathsDiffer(s, f, g))
  }

  function Before(l: seq<int>, i: int): Option<int>
    requires 0 <= i < |l|
  {
    if 0 < i then Some(l[i - 1]) else None
  }

  function After(l: seq<int>, i: int): Option<int>
    requires 0 <= i < |l|
  {
    if i + 1 < |l| then Some(l[i + 1]) else None
  }

  predicate LinkedAt(s: State, f: int, l: seq<int>, i: int)
    requires 0 <= i < |l|
  {
    && l[i] in s.handleOf && s.handleOf[l[i]].file == f
    && s.handleOf[l[i]].prev == Before(l, i) && s.handleOf[l[i]].next == After(l, i)
  }

  /** The handles of file f form the list l. */
  ghost predicate ListOk(s: State, f: int, l: seq<int>)
    requires f in s.fileOf
  {
    && l != [] && Distinct(l)
    && s.fileOf[f].first == Some(l[0]) && s.fileOf[f].last == Some(l[|l| - 1])
    && forall i :: 0 <= i < |l| ==> LinkedAt(s, f, l, i)
  }

  predicate InList(s: State, lists: map<int, seq<int>>, h: int)
    requires h in s.handleOf
  {
    s.handleOf[h].file in s.fileOf && s.handleOf[h].file in lists && h in lists[s.handleOf[h].file]
  }

  /** Each open file has a list of one or more handles, and each handle is in the list of its file. */
  ghost predicate ListsOk(s: State, lists: map<int, seq<int>>) {
    && lists.Keys == s.fileOf.Keys
    && (forall f :: f in s.fileOf ==> ListOk(s, f, lists[f]))
    && (forall h :: h in s.handleOf ==> InList(s, lists, h))
  }

  ghost predicate Ok(s: State, lists: map<int, seq<int>>) {
    HandlesOk(s) && FdsOk(s) && FilesOk(s) && ListsOk(s, lists)
  }

  /** The four structures agree with each other. */
  ghost predicate Consistent(s: State) { exists lists :: Ok(s, lists) }

  // ---------------------------------------------------------------------
  // Updates
  // ---------------------------------------------------------------------

  /** The tables with a handle registered in its slots. */
  function Register(s: State, h: int, r: Handle): State
    requires 0 <= r.handleI < |s.handles| && r.proc in s.fds && 0 <= r.procfd < |s.fds[r.proc]|
  {
    s.(handleOf := s.handleOf[h := r], handles := s.handles[r.handleI := Some(h)],
       fds := s.fds[r.proc := s.fds[r.proc][r.procfd := Some(h)]])
  }

  /** The free slots that a new handle is given. */
  predicate Free(s: State, i: int, p: int, fd: int) {
    && 0 <= i < |s.handles| && s.handles[i] == None
    && p in s.fds && 0 <= fd < |s.fds[p]| && s.fds[p][fd] == None
  }

  /** A handle that goes to the end of the list of an open file. */
  function Append(s: State, h: int, r: Handle): State
    requires Free(s, r.handleI, r.proc, r.procfd) && r.file in s.fileOf && s.fileOf[r.file].last.Some?
    requires s.fileOf[r.file].last.value in s.handleOf
  {
    var f, last := r.file, s.fileOf[r.file].last.value;
    var t := s.(handleOf := s.handleOf[last := s.handleOf[last].(next := Some(h))],
                fileOf := s.fileOf[f := s.fileOf[f].(last := Some(h))]);
    Register(t, h, r.(prev := Some(last)))
  }

  /** A handle without neighbours, for a file that is opened with it. */
  function OpenWith(s: State, f: int, file: File, h: int, r: Handle): State
    requires Free(s, r.handleI, r.proc, r.procfd) && 0 <= file.fileI < |s.openFiles|
  {
    Register(s.(fileOf := s.fileOf[f := file.(first := Some(h), last := Some(h))],
                openFiles := s.openFiles[file.fileI := Some(f)]), h, r)
  }

  /** Both ends of a pipe: a file that is opened with two handles. */
  function OpenPair(s: State, f: int, file: File, h: int, r: Handle, g: int, q: Handle): State
    requires Free(s, r.handleI, r.proc, r.procfd) && Free(s, q.handleI, q.proc, q.procfd)
    requires 0 <= file.fileI < |s.openFiles| && r.proc == q.proc
  {
    var t := s.(fileOf := s.fileOf[f := file.(first := Some(h), last := Some(g))],
                openFiles := s.openFiles[file.fileI := Some(f)]);
    Register(Register(t, h, r.(next := Some(g))), g, q.(prev := Some(h)))
  }

  /** A handle's record with a new successor, or predecessor; no record when there is no handle. */
  function SetNext(m: map<int, Handle>, h: Option<int>, next: Option<int>): map<int, Handle> {
    if h.Some? && h.value in m then m[h.value := m[h.value].(next := next)] else m
  }

  function SetPrev(m: map<int, Handle>, h: Option<int>, prev: Option<int>): map<int, Handle> {
    if h.Some? && h.value in m then m[h.value := m[h.value].(prev := prev)] else m
  }

  /** The links around a handle that leaves the list of its file. */
  function Unlinked(s: State, h: int): State
    requires h in s.handleOf && s.handleOf[h].file in s.fileOf
  {
    var r := s.handleOf[h];
    var m := SetPrev(SetNext(s.handleOf, r.prev, r.next), r.next, r.prev);
    var file := s.fileOf[r.file];
    var first := if file.first == Some(h) then file.(first := r.next) else file;
    var last := if file.last == Some(h) then first.(last := r.prev) else first;
    s.(handleOf := m, fileOf := s.fileOf[r.file := last])
  }

  /** The handle leaves its slots, and is gone. */
  function Unregistered(s: State, h: int): State
    requires h in s.handleOf && InFd(s, h) && 0 <= s.handleOf[h].handleI < |s.handles|
  {
    var r := s.handleOf[h];
    s.(handleOf := s.handleOf - {h}, handles := s.handles[r.handleI := None],
       fds := s.fds[r.proc := s.fds[r.proc][r.procfd := None]])
  }

  /** A file without handles is gone, too. */
  function Swept(s: State, f: int): State
    requires f in s.fileOf && 0 <= s.fileOf[f].fileI < |s.openFiles|
  {
    if s.fileOf[f].first == None
    then s.(fileOf := s.fileOf - {f}, openFiles := s.openFiles[s.fileOf[f].fileI := None])
    else s
  }

  /** The handle is in its slots, and its file is open. */
  predicate Live(s: State, h: int) {
    h in s.handleOf && InFd(s, h) && InSlot(s, h) && s.handleOf[h].file in s.fileOf && InFileSlot(s, s.handleOf[h].file)
  }

  /** `close` */
  function Closed(s: State, h: int): State
    requires Live(s, h)
  {
    Swept(Unregistered(Unlinked(s, h), h), s.handleOf[h].file)
  }

  /** `transplant_fd`: the handle moves to a descriptor of another process, whatever was there. */
  function Moved(s: State, h: int, p: int, fd: int): State
    requires h in s.handleOf && InFd(s, h) && p in s.fds && 0 <= fd < |s.fds[p]|
  {
    var r := s.handleOf[h];
    var fds := s.fds[r.proc := s.fds[r.proc][r.procfd := None]];
    s.(handleOf := s.handleOf[h := r.(proc := p, procfd := fd)], fds := fds[p := fds[p][fd := Some(h)]])
  }

  /** All numbers of handles, files and pipes that have been given out are below `next`. */
  ghost predicate Numbered(s: State, next: int) {
    && (forall h :: h in s.handleOf ==> h < next)
    && (forall f :: f in s.fileOf ==> f < next)
    && (forall f :: f in s.fileOf ==> PipeBelow(s, f, next))
  }

  predicate PipeBelow(s: State, f: int, next: int)
    requires f in s.fileOf
  {
    s.fileOf[f].path.Pipe? ==> s.fileOf[f].path.id < next
  }
}
