/**
  Paths of the virtual filesystem: the normal form, and what normalisation does
  to a string, with the capacities of the source's strings.
 */
module PathSpec {
  import opened Strings

  const MAX_PATH := 256
  const MAX_NAME := 64

  // ---------------------------------------------------------------------
  // The reference: a path is a stack of names
  // ---------------------------------------------------------------------

  predicate GoodName(c: string) { c != "" && c != "." && c != ".." && '/' !in c && NUL !in c }

  predicate GoodNames(cs: seq<string>) { forall i :: 0 <= i < |cs| ==> GoodName(cs[i]) }

  /** The names with a slash before each. */
  function Slashed(cs: seq<string>): (p: string)
    ensures cs != [] ==> p != "" && p[0] == '/'
  {
    if cs == [] then "" else "/" + cs[0] + Slashed(cs[1..])
  }

  /** The path with these names. */
  function Join(cs: seq<string>): (p: string)
    ensures p != "" && p[0] == '/'
  {
    if cs == [] then "/" else Slashed(cs)
  }

  /** An absolute path without empty, "." or ".." components and without a trailing slash. */
  ghost predicate Canonical(p: string) { exists cs :: GoodNames(cs) && p == Join(cs) }

  /** The components of a string between its slashes, when `cur` has been read of the first one. */
  function Components(cur: string, s: string): (cs: seq<string>)
    ensures cs != []
    decreases |s|
  {
    if s == "" then [cur]
    else if s[0] == '/' then [cur] + Components("", s[1..])
    else Components(cur + [s[0]], s[1..])
  }

  function Step(stack: seq<string>, c: string): seq<string> {
    if c == ".." then (if stack == [] then [] else stack[..|stack| - 1])
    else if c == "." || c == "" then stack
    else stack + [c]
  }

  function Fold(stack: seq<string>, cs: seq<string>): seq<string>
    decreases |cs|
  {
    if cs == [] then stack else Fold(Step(stack, cs[0]), cs[1..])
  }

  /** Where a path leads from a working directory. */
  function Resolve(wd: seq<string>, s: string): seq<string> {
    if s == "" then [] else if s[0] == '/' then Fold([], Components("", s)) else Fold(wd, Components("", s))
  }

  // ---------------------------------------------------------------------
  // The strings of the source
  // ---------------------------------------------------------------------

  /** The string up to its last slash. */
  function UpToSlash(p: string): (r: string)
    ensures r <= p && (r != "" ==> r[|r| - 1] == '/')
    ensures forall i :: |r| <= i < |p| ==> p[i] != '/'
  {
    if p == "" || p[|p| - 1] == '/' then p else UpToSlash(p[..|p| - 1])
  }

  /** `pop_path_component` */
  function Popped(p: string): string {
    if |p| <= 1 then p
    else
      var q := if p[|p| - 1] == '/' then p[..|p| - 1] else p;
      var r := UpToSlash(q);
      if |r| > 1 then r[..|r| - 1] else r
  }

  /** `push_component` */
  function Pushed(p: string, c: string): string {
    if c == ".." then Popped(p)
    else if c == "." || c == "" then p
    else
      var q := if p == "" || p[|p| - 1] != '/' then Take(p + "/", MAX_PATH) else p;
      Take(q + UntilNul(c), MAX_PATH)
  }

  /** The components as the source collects them: the characters behind the capacity of a name are dropped. */
  function Cut(cur: string, s: string): (cs: seq<string>)
    ensures cs != []
    decreases |s|
  {
    if s == "" then [cur]
    else if s[0] == '/' then [cur] + Cut("", s[1..])
    else Cut(Take(cur + [s[0]], MAX_NAME), s[1..])
  }

  function PushAll(p: string, cs: seq<string>): string
    decreases |cs|
  {
    if cs == [] then p else PushAll(Pushed(p, cs[0]), cs[1..])
  }

  /** `canonicalise_path`, for a process with the given working directory. */
  function Canonicalised(wd: string, s: string): string {
    if s == "" then "/"
    else if s[0] == '/' then PushAll("/", Cut("", s[1..]))
    else PushAll(Take(UntilNul(wd), MAX_PATH), Cut("", s))
  }

  /** What `basename` takes off a path, and leaves of it. */
  function Base(p: string): string { Take(p[|UpToSlash(p)|..], MAX_NAME) }

  function Parent(p: string): string {
    var n := |Base(p)| + 1;
    if n >= |p| then "/" else p[..|p| - n]
  }
}
