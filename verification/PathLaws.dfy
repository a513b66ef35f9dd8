/**
  The laws of path normalisation on strings: what one component does, and how
  the components of a path work together. They hold of all strings, also of
  paths and names that are too long for the strings of the source.
 */
module PathLaws {
  import opened PathSpec
  import opened PathTheorems
  import opened Strings

  /** A string that a path string holds as it is. */
  predicate Clean(p: string) { NUL !in p && |p| <= MAX_PATH }

  lemma CleanStays(p: string)
    requires Clean(p)
    ensures Take(UntilNul(p), MAX_PATH) == p
  {
    UntilNulAll(p);
  }

  lemma PushedClean(p: string, c: string)
    requires Clean(p)
    ensures Clean(Pushed(p, c))
  {}

  lemma {:induction false} PushAllClean(p: string, cs: seq<string>)
    requires Clean(p)
    ensures Clean(PushAll(p, cs))
    decreases |cs|
  {
    if cs != [] {
      PushedClean(p, cs[0]);
      PushAllClean(Pushed(p, cs[0]), cs[1..]);
    }
  }

  lemma {:induction false} PushAllAppend(p: string, a: seq<string>, b: seq<string>)
    ensures PushAll(p, a + b) == PushAll(PushAll(p, a), b)
    decreases |a|
  {
    if a == [] {
      assert a + b == b;
    } else {
      assert (a + b)[1..] == a[1..] + b;
      PushAllAppend(Pushed(p, a[0]), a[1..], b);
    }
  }

  lemma {:induction false} CutAppend(cur: string, p: string, q: string)
    ensures Cut(cur, p + "/" + q) == Cut(cur, p) + Cut("", q)
    decreases |p|
  {
    var s := p + "/" + q;
    if p == "" {
      assert s == "/" + q && s[1..] == q;
    } else {
      assert s[0] == p[0] && s[1..] == p[1..] + "/" + q;
      if p[0] == '/' {
        CutAppend("", p[1..], q);
        assert [cur] + (Cut("", p[1..]) + Cut("", q)) == [cur] + Cut("", p[1..]) + Cut("", q);
      } else {
        CutAppend(Take(cur + [p[0]], MAX_NAME), p[1..], q);
      }
    }
  }

  /** The path that normalisation starts from, and the components that it pushes. */
  function Origin(wd: string, s: string): string {
    if s != "" && s[0] == '/' then "/" else Take(UntilNul(wd), MAX_PATH)
  }

  lemma AsPushes(wd: string, s: string)
    requires s != ""
    ensures Clean(Origin(wd, s)) && Canonicalised(wd, s) == PushAll(Origin(wd, s), Cut("", s))
  {
    if s[0] == '/' {
      assert Cut("", s)[0] == "" && Cut("", s)[1..] == Cut("", s[1..]);
      assert Pushed("/", "") == "/";
    }
  }

  lemma JoinedPushes(wd: string, p: string, q: string)
    requires p != ""
    ensures Canonicalised(wd, p + "/" + q) == PushAll(Canonicalised(wd, p), Cut("", q)) && Clean(Canonicalised(wd, p))
  {
    var s := p + "/" + q;
    AsPushes(wd, p);
    AsPushes(wd, s);
    assert s[0] == p[0];
    CutAppend("", p, q);
    PushAllAppend(Origin(wd, p), Cut("", p), Cut("", q));
    PushAllClean(Origin(wd, p), Cut("", p));
  }

  // ---------------------------------------------------------------------
  // The laws
  // ---------------------------------------------------------------------

  /** A path below another one is found by going to that one first. */
  lemma Compose(wd: string, p: string, q: string)
    requires p != "" && q != "" && q[0] != '/'
    ensures Canonicalised(wd, p + "/" + q) == Canonicalised(Canonicalised(wd, p), q)
  {
    JoinedPushes(wd, p, q);
    AsPushes(Canonicalised(wd, p), q);
    CleanStays(Canonicalised(wd, p));
  }

  /** A path that begins with a slash is found from the root, whatever the working directory; the empty path is the root. */
  lemma FromRoot(wd: string, s: string)
    ensures Canonicalised(wd, "/" + s) == Canonicalised("/", s) && Canonicalised(wd, "") == "/"
  {
    var r := "/" + s;
    assert r[0] == '/' && r[1..] == s;
    CleanStays("/");
    if s == "" {
      assert Cut("", s) == [""];
      assert PushAll("/", [""]) == PushAll(Pushed("/", ""), [""][1..]);
    } else {
      AsPushes("/", s);
    }
  }

  /** A slash at the end, and a second slash, change nothing. */
  lemma SpareSlashes(wd: string, p: string, q: string)
    requires p != ""
    ensures Canonicalised(wd, p + "/") == Canonicalised(wd, p)
    ensures Canonicalised(wd, p + "//" + q) == Canonicalised(wd, p + "/" + q)
  {
    JoinedPushes(wd, p, "");
    assert p + "/" + "" == p + "/";
    PushOne(Canonicalised(wd, p), "");
    JoinedPushes(wd, p + "/", q);
    assert p + "/" + "/" + q == p + "//" + q;
    JoinedPushes(wd, p, q);
  }

  lemma PushOne(p: string, c: string)
    ensures PushAll(p, [c]) == Pushed(p, c)
  {
    assert [c][1..] == [];
    assert PushAll(Pushed(p, c), []) == Pushed(p, c);
  }

  lemma {:induction false} CutOne(cur: string, c: string)
    requires '/' !in c && |cur + c| <= MAX_NAME
    ensures Cut(cur, c) == [cur + c]
    decreases |c|
  {
    if c == "" {
      assert cur + c == cur;
    } else {
      assert c[0] in c && cur + [c[0]] + c[1..] == cur + c;
      forall x | x in c[1..] ensures x != '/' { assert x in c; }
      CutOne(cur + [c[0]], c[1..]);
    }
  }

  /**
    One component from a directory with the given names: ".." drops the last
    name, if there is one; "." stays; a name goes one further.
   */
  lemma OneComponent(wd: seq<string>, c: string)
    requires WorkingDir(wd)
    ensures Canonicalised(Join(wd), "..") == Join(if wd == [] then [] else wd[..|wd| - 1])
    ensures Canonicalised(Join(wd), ".") == Join(wd)
    ensures GoodName(c) && |c| <= MAX_NAME && |Join(wd + [c])| <= MAX_PATH ==> Canonicalised(Join(wd), c) == Join(wd + [c])
  {
    NoNulInJoin(wd);
    CleanStays(Join(wd));
    FromOne(wd, "..");
    PoppedJoin(wd);
    FromOne(wd, ".");
    if GoodName(c) && |c| <= MAX_NAME && |Join(wd + [c])| <= MAX_PATH {
      FromOne(wd, c);
      PushedJoin(wd, c);
    }
  }

  lemma FromOne(wd: seq<string>, c: string)
    requires Clean(Join(wd)) && '/' !in c && c != "" && |c| <= MAX_NAME
    ensures Canonicalised(Join(wd), c) == Pushed(Join(wd), c)
  {
    assert c[0] in c;
    AsPushes(Join(wd), c);
    CleanStays(Join(wd));
    CutOne("", c);
    assert "" + c == c;
    PushOne(Join(wd), c);
  }
}
