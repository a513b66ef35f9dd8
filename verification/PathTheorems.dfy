/** Normalising a path is resolving its components over a stack of names. */
module PathTheorems {
  import opened Strings
  import opened PathSpec

  lemma {:induction false} SlashedAppend(cs: seq<string>, c: string)
    ensures Slashed(cs + [c]) == Slashed(cs) + "/" + c
  {
    if cs == [] {
      assert Slashed([c]) == "/" + c + Slashed([]);
      assert [] + [c] == [c];
    } else {
      SlashedAppend(cs[1..], c);
      assert (cs + [c])[1..] == cs[1..] + [c];
    }
  }

  /** A path with at least one name ends in a slash and its last name. */
  lemma JoinLast(cs: seq<string>, c: string)
    ensures Join(cs + [c]) == Slashed(cs) + "/" + c
    ensures cs != [] ==> Join(cs + [c]) == Join(cs) + "/" + c
    ensures cs == [] ==> Join(cs + [c]) == Join(cs) + c
  {
    SlashedAppend(cs, c);
  }

  lemma UpToSlashIs(a: string, c: string)
    requires '/' !in c
    ensures UpToSlash(a + "/" + c) == a + "/"
  {
    var p := a + "/" + c;
    assert p[|a|] == '/';
    forall i | |a| + 1 <= i < |p| ensures p[i] != '/' {
      assert p[i] == c[i - (|a| + 1)];
      assert p[i] in c;
    }
  }

  /** The last character of a path with names is not a slash. */
  lemma LastOfJoin(cs: seq<string>)
    requires GoodNames(cs) && cs != []
    ensures |Join(cs)| > 1 && Join(cs)[|Join(cs)| - 1] != '/'
  {
    var init, c := cs[..|cs| - 1], cs[|cs| - 1];
    assert cs == init + [c];
    JoinLast(init, c);
    assert GoodName(c);
    assert Join(cs)[|Join(cs)| - 1] == c[|c| - 1];
    assert c[|c| - 1] in c;
  }

  lemma PoppedName(a: string, c: string)
    requires '/' !in c && c != ""
    ensures Popped(a + "/" + c) == if a == "" then "/" else a
  {
    var p := a + "/" + c;
    assert p[|p| - 1] == c[|c| - 1];
    assert c[|c| - 1] in c;
    UpToSlashIs(a, c);
    assert (a + "/")[..|a|] == a;
  }

  /** Popping a component takes the last name off. */
  lemma PoppedJoin(cs: seq<string>)
    requires GoodNames(cs)
    ensures Popped(Join(cs)) == Join(if cs == [] then [] else cs[..|cs| - 1])
  {
    if cs != [] {
      var init, c := cs[..|cs| - 1], cs[|cs| - 1];
      assert cs == init + [c] && GoodName(c);
      JoinLast(init, c);
      PoppedName(Slashed(init), c);
    }
  }

  /** A component of a path string: it has no slash and no NUL. */
  predicate Plain(c: string) { '/' !in c && NUL !in c }

  lemma StepGood(cs: seq<string>, c: string)
    requires GoodNames(cs) && Plain(c)
    ensures GoodNames(Step(cs, c))
  {}

  /** Pushing a component on a path does to its names what a step does, as long as the result fits. */
  lemma PushedJoin(cs: seq<string>, c: string)
    requires GoodNames(cs) && Plain(c) && |Join(Step(cs, c))| <= MAX_PATH
    ensures Pushed(Join(cs), c) == Join(Step(cs, c))
  {
    if c == ".." {
      PoppedJoin(cs);
    } else if c != "." && c != "" {
      UntilNulAll(c);
      JoinLast(cs, c);
      if cs != [] { LastOfJoin(cs); }
    }
  }

  /** All paths on the way fit in a path string. */
  predicate Fits(stack: seq<string>, cs: seq<string>)
    decreases |cs|
  {
    |Join(stack)| <= MAX_PATH && (cs != [] ==> Fits(Step(stack, cs[0]), cs[1..]))
  }

  predicate AllPlain(cs: seq<string>) { forall i :: 0 <= i < |cs| ==> Plain(cs[i]) }

  lemma {:induction false} PushAllFolds(stack: seq<string>, cs: seq<string>)
    requires GoodNames(stack) && AllPlain(cs) && Fits(stack, cs)
    ensures PushAll(Join(stack), cs) == Join(Fold(stack, cs)) && GoodNames(Fold(stack, cs))
    decreases |cs|
  {
    if cs != [] {
      assert Fits(Step(stack, cs[0]), cs[1..]) && Plain(cs[0]);
      StepGood(stack, cs[0]);
      PushedJoin(stack, cs[0]);
      PushAllFolds(Step(stack, cs[0]), cs[1..]);
    }
  }

  predicate ShortNames(cs: seq<string>) { forall i :: 0 <= i < |cs| ==> |cs[i]| <= MAX_NAME }

  lemma {:induction false} ComponentsPlain(cur: string, s: string)
    requires Plain(cur) && NUL !in s
    ensures AllPlain(Components(cur, s))
    decreases |s|
  {
    if s != "" {
      assert s[0] in s;
      if s[0] == '/' { ComponentsPlain("", s[1..]); } else { ComponentsPlain(cur + [s[0]], s[1..]); }
    }
  }

  lemma {:induction false} FirstComponent(cur: string, s: string)
    ensures |cur| <= |Components(cur, s)[0]|
    decreases |s|
  {
    if s != "" && s[0] != '/' { FirstComponent(cur + [s[0]], s[1..]); }
  }

  /** No character is dropped when all names are short enough. */
  lemma {:induction false} CutIsComponents(cur: string, s: string)
    requires ShortNames(Components(cur, s))
    ensures Cut(cur, s) == Components(cur, s)
    decreases |s|
  {
    FirstComponent(cur, s);
    if s != "" {
      if s[0] == '/' {
        assert Components(cur, s)[1..] == Components("", s[1..]);
        assert forall i :: 0 <= i < |Components("", s[1..])| ==> Components("", s[1..])[i] == Components(cur, s)[i + 1];
        CutIsComponents("", s[1..]);
      } else {
        FirstComponent(cur + [s[0]], s[1..]);
        assert ShortNames(Components(cur + [s[0]], s[1..]));
        assert |Components(cur + [s[0]], s[1..])[0]| <= MAX_NAME;
        CutIsComponents(cur + [s[0]], s[1..]);
      }
    }
  }

  /** The stack of names that normalisation starts from. */
  function Base0(wd: seq<string>, s: string): seq<string> { if s != "" && s[0] == '/' then [] else wd }

  /**
    Normalisation resolves a path: for a working directory in normal form and a
    path whose names and intermediate results fit their strings, it gives the
    path of the stack of names that the components lead to. The result is again
    in normal form.
   */
  lemma NormalisationResolves(wd: seq<string>, s: string)
    requires GoodNames(wd) && NUL !in s && |Join(wd)| <= MAX_PATH && NUL !in Join(wd)
    requires ShortNames(Components("", s)) && Fits(Base0(wd, s), Components("", s))
    ensures Canonicalised(Join(wd), s) == Join(Resolve(wd, s)) && GoodNames(Resolve(wd, s))
    ensures Canonical(Canonicalised(Join(wd), s))
  {
    if s != "" {
      ComponentsPlain("", s);
      CutIsComponents("", s);
      UntilNulAll(Join(wd));
      PushAllFolds(Base0(wd, s), Components("", s));
      if s[0] == '/' {
        assert Components("", s)[1..] == Components("", s[1..]);
        assert Cut("", s)[1..] == Cut("", s[1..]);
        assert PushAll("/", Cut("", s)) == PushAll(Pushed("/", ""), Cut("", s)[1..]);
      }
    }
    assert GoodNames(Resolve(wd, s));
  }

  lemma {:induction false} NoNulInJoin(cs: seq<string>)
    requires GoodNames(cs)
    ensures NUL !in Slashed(cs) && NUL !in Join(cs)
  {
    if cs != [] {
      assert GoodName(cs[0]);
      NoNulInJoin(cs[1..]);
    }
  }

  /** A path that is short enough never overflows on the way. */
  lemma {:induction false} ShortPathFits(stack: seq<string>, cur: string, s: string)
    requires GoodNames(stack) && Plain(cur) && NUL !in s && |Join(stack)| + |cur| + |s| + 1 <= MAX_PATH
    ensures Fits(stack, Components(cur, s))
    decreases |s|
  {
    var cs := Components(cur, s);
    if s == "" {
      StepLength(stack, cur);
      assert cs[1..] == [];
      assert Fits(Step(stack, cur), []);
    } else if s[0] == '/' {
      StepLength(stack, cur);
      StepGood(stack, cur);
      ShortPathFits(Step(stack, cur), "", s[1..]);
      assert cs[1..] == Components("", s[1..]);
    } else {
      assert s[0] in s;
      ShortPathFits(stack, cur + [s[0]], s[1..]);
    }
  }

  lemma StepLength(stack: seq<string>, c: string)
    requires GoodNames(stack)
    ensures |Join(Step(stack, c))| <= |Join(stack)| + 1 + |c|
  {
    if c == ".." && stack != [] {
      var init, last := stack[..|stack| - 1], stack[|stack| - 1];
      assert stack == init + [last] && GoodName(last);
      JoinLast(init, last);
    } else if c != "." && c != "" {
      JoinLast(stack, c);
    }
  }

  // ---------------------------------------------------------------------
  // Normal forms stay as they are
  // ---------------------------------------------------------------------

  lemma {:induction false} ComponentsPrefix(cur: string, c: string, rest: string)
    requires '/' !in c
    ensures Components(cur, c + rest) == Components(cur + c, rest)
    decreases |c|
  {
    if c != "" {
      assert c[0] in c;
      assert (c + rest)[1..] == c[1..] + rest;
      ComponentsPrefix(cur + [c[0]], c[1..], rest);
      assert cur + [c[0]] + c[1..] == cur + c;
    } else {
      assert c + rest == rest && cur + c == cur;
    }
  }

  lemma {:induction false} ComponentsOfSlashed(cur: string, cs: seq<string>)
    requires GoodNames(cs)
    ensures Components(cur, Slashed(cs)) == [cur] + cs
    decreases |cs|
  {
    if cs != [] {
      var p := Slashed(cs);
      assert GoodName(cs[0]);
      assert p == "/" + cs[0] + Slashed(cs[1..]) && p[1..] == cs[0] + Slashed(cs[1..]);
      ComponentsPrefix("", cs[0], Slashed(cs[1..]));
      assert "" + cs[0] == cs[0];
      ComponentsOfSlashed(cs[0], cs[1..]);
    }
  }

  lemma {:induction false} FoldGood(stack: seq<string>, cs: seq<string>)
    requires GoodNames(cs)
    ensures Fold(stack, cs) == stack + cs
    decreases |cs|
  {
    if cs != [] {
      assert GoodName(cs[0]);
      FoldGood(stack + [cs[0]], cs[1..]);
    }
  }

  /** A path in normal form resolves to its own names, wherever the process is. */
  lemma ResolveJoin(wd: seq<string>, cs: seq<string>)
    requires GoodNames(cs)
    ensures Resolve(wd, Join(cs)) == cs
  {
    if cs == [] {
      assert Components("", "/") == [""] + Components("", "/"[1..]);
      assert Components("", "") == [""];
      assert Components("", "/") == ["", ""];
      assert Fold([], ["", ""]) == Fold([], [""]) == Fold([], []);
    } else {
      ComponentsOfSlashed("", cs);
      assert ([""] + cs)[1..] == cs;
      FoldGood([], cs);
    }
  }

  lemma ShortJoinFits(stack: seq<string>, cs: seq<string>)
    requires GoodNames(stack) && GoodNames(cs) && |Join(stack + cs)| <= MAX_PATH
    ensures Fits(stack, cs)
    decreases |cs|
  {
    if cs == [] {
      assert stack + cs == stack;
    } else {
      var c := cs[0];
      assert GoodName(c) && stack + cs == (stack + [c]) + cs[1..];
      ShortJoinFits(stack + [c], cs[1..]);
      JoinLonger(stack, c);
      assert Step(stack, c) == stack + [c];
    }
  }

  lemma JoinLonger(stack: seq<string>, c: string)
    ensures |Join(stack)| <= |Join(stack + [c])|
  {
    JoinLast(stack, c);
  }

  /** A path in normal form stays as it is, in any working directory. */
  lemma NormalFormStays(wd: seq<string>, cs: seq<string>)
    requires GoodNames(wd) && |Join(wd)| <= MAX_PATH && GoodNames(cs) && ShortNames(cs) && |Join(cs)| <= MAX_PATH
    ensures Canonicalised(Join(wd), Join(cs)) == Join(cs)
  {
    NoNulInJoin(wd);
    NoNulInJoin(cs);
    ResolveJoin(wd, cs);
    if cs == [] {
      assert Components("", "/") == [""] + Components("", "/"[1..]);
      assert Components("", "") == [""];
      assert Fits([], [""]);
    } else {
      ComponentsOfSlashed("", cs);
      assert ([""] + cs)[1..] == cs;
      assert [] + cs == cs;
      ShortJoinFits([], cs);
    }
    NormalisationResolves(wd, Join(cs));
  }

  lemma {:induction false} CutPlain(cur: string, s: string)
    requires Plain(cur) && |cur| <= MAX_NAME && NUL !in s
    ensures AllPlain(Cut(cur, s)) && ShortNames(Cut(cur, s))
    decreases |s|
  {
    if s != "" {
      assert s[0] in s;
      if s[0] == '/' { CutPlain("", s[1..]); } else { CutPlain(Take(cur + [s[0]], MAX_NAME), s[1..]); }
    }
  }

  lemma {:induction false} FoldShort(stack: seq<string>, cs: seq<string>)
    requires ShortNames(stack) && ShortNames(cs)
    ensures ShortNames(Fold(stack, cs))
    decreases |cs|
  {
    if cs != [] { FoldShort(Step(stack, cs[0]), cs[1..]); }
  }

  lemma {:induction false} FoldFits(stack: seq<string>, cs: seq<string>)
    requires Fits(stack, cs)
    ensures |Join(Fold(stack, cs))| <= MAX_PATH
    decreases |cs|
  {
    if cs != [] { FoldFits(Step(stack, cs[0]), cs[1..]); }
  }

  /** The names of a working directory: it was normalised itself. */
  predicate WorkingDir(wd: seq<string>) { GoodNames(wd) && ShortNames(wd) && |Join(wd)| <= MAX_PATH }

  /**
    Normalisation resolves any path without NUL whose intermediate results fit a
    path string, over its names as they are cut to the length of a name; the
    result is in normal form, with short names, and fits.
   */
  lemma NormalisationFolds(wd: seq<string>, s: string)
    requires WorkingDir(wd) && NUL !in s && Fits(Base0(wd, s), Cut("", s))
    ensures var cs := if s == "" then [] else Fold(Base0(wd, s), Cut("", s));
      Canonicalised(Join(wd), s) == Join(cs) && WorkingDir(cs)
  {
    if s != "" {
      CutPlain("", s);
      NoNulInJoin(wd);
      UntilNulAll(Join(wd));
      PushAllFolds(Base0(wd, s), Cut("", s));
      FoldShort(Base0(wd, s), Cut("", s));
      FoldFits(Base0(wd, s), Cut("", s));
      if s[0] == '/' {
        assert Cut("", s)[1..] == Cut("", s[1..]);
        assert PushAll("/", Cut("", s)) == PushAll(Pushed("/", ""), Cut("", s)[1..]);
      }
    }
  }

  /** Normalising a path twice, in whatever working directories, is normalising it once. */
  lemma NormalisationIdempotent(wd: seq<string>, wd2: seq<string>, s: string)
    requires WorkingDir(wd) && WorkingDir(wd2) && NUL !in s && Fits(Base0(wd, s), Cut("", s))
    ensures var p := Canonicalised(Join(wd), s); Canonicalised(Join(wd2), p) == p
  {
    NormalisationFolds(wd, s);
    NormalFormStays(wd2, if s == "" then [] else Fold(Base0(wd, s), Cut("", s)));
  }

  /** When a path string is full, a further name is dropped without a sign. */
  lemma FullPathDropsNames(p: string, c: string)
    requires |p| == MAX_PATH && p[|p| - 1] != '/' && c != ".."
    ensures Pushed(p, c) == p
  {
    assert Take(p + "/", MAX_PATH) == p;
    assert Take(p + UntilNul(c), MAX_PATH) == p;
  }

  // ---------------------------------------------------------------------
  // Base names
  // ---------------------------------------------------------------------

  /** A path and a name under it. */
  function Under(parent: string, base: string): string { if parent == "/" then parent + base else parent + "/" + base }

  /**
    A path in normal form, other than "/", splits into the path of its parent
    and its last name, which rejoin to it; exactly when that name fits a name
    string.
   */
  lemma BasenameSplits(cs: seq<string>)
    requires GoodNames(cs) && cs != []
    ensures var p, last := Join(cs), cs[|cs| - 1];
      && (|last| <= MAX_NAME <==> Base(p) == last)
      && (|last| <= MAX_NAME ==> Parent(p) == Join(cs[..|cs| - 1]) && Under(Parent(p), Base(p)) == p)
      && (|last| > MAX_NAME ==> Under(Parent(p), Base(p)) != p)
  {
    var init, c := cs[..|cs| - 1], cs[|cs| - 1];
    assert cs == init + [c] && GoodName(c);
    JoinLast(init, c);
    UpToSlashIs(Slashed(init), c);
    BaseOf(Slashed(init), c);
    if init != [] { LastOfJoin(init); }
    if |c| > MAX_NAME { CutBase(Slashed(init), c); }
  }

  /**
    Every normalised path other than "/" splits into the path of its parent,
    which is in normal form, and its last name, and they rejoin to it: the names
    of a normalised path are never too long.
   */
  lemma BasenameRejoins(wd: seq<string>, s: string)
    requires WorkingDir(wd) && NUL !in s && Fits(Base0(wd, s), Cut("", s))
    ensures var p := Canonicalised(Join(wd), s);
      p != "/" ==> Under(Parent(p), Base(p)) == p && Canonical(Parent(p)) && GoodName(Base(p))
  {
    var cs := Fold(Base0(wd, s), Cut("", s));
    NormalisationFolds(wd, s);
    if s != "" && cs != [] {
      BasenameSplits(cs);
      assert GoodNames(cs[..|cs| - 1]) && GoodName(cs[|cs| - 1]);
    }
  }

  lemma BaseOf(a: string, c: string)
    requires '/' !in c && c != ""
    ensures var p := a + "/" + c;
      && Base(p) == Take(c, MAX_NAME)
      && (|c| <= MAX_NAME ==> Parent(p) == if a == "" then "/" else a)
  {
    UpToSlashIs(a, c);
    var p := a + "/" + c;
    assert p[|a| + 1..] == c && p[..|a|] == a;
  }

  /** A base name that is cut does not rejoin. */
  lemma CutBase(a: string, c: string)
    requires '/' !in c && |c| > MAX_NAME
    ensures var p := a + "/" + c; Under(Parent(p), Base(p)) != p
  {
    BaseOf(a, c);
    var p := a + "/" + c;
    var k := |p| - MAX_NAME - 1;
    var x := p[k];
    assert x == c[|c| - MAX_NAME - 1];
    assert x in c;
    assert Parent(p) == p[..k];
    var u := Under(Parent(p), Base(p));
    if Parent(p) == "/" { assert |u| != |p|; } else { assert u[k] == '/'; }
  }
}
