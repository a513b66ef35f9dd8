/** The path functions of src/kernel/src/filesystem/vfs.cc, which edit strings in place. */
module Paths {
  import opened Strings
  import opened PathSpec
  import PathTheorems

  lemma UpToSlashAt(p: string, n: nat)
    requires 0 < n <= |p| && p[n - 1] == '/' && forall i :: n <= i < |p| ==> p[i] != '/'
    ensures UpToSlash(p) == p[..n]
  {
    var r := UpToSlash(p);
  }

  /** The inner loop of `pop_path_component`: the name behind the last slash comes off. */
  method PopName(path: Str)
    requires path.Valid() && path.Contents() != "" && path.Contents()[0] == '/'
    modifies path, path.data
    ensures path.Valid() && path.Contents() == UpToSlash(old(path.Contents()))
    ensures path.Contents() != "" && path.Contents()[0] == '/'
  {
    ghost var q := path.Contents();
    while path.At(path.length - 1) != '/'
      invariant path.Valid() && 0 < path.length <= |q| && path.Contents() == q[..path.length]
      invariant forall i :: path.length <= i < |q| ==> q[i] != '/'
      decreases path.length
    {
      path.Pop(1);
    }
    UpToSlashAt(q, path.length);
  }

  /** `pop_path_component` */
  method PopPathComponent(path: Str)
    requires path.Valid() && (path.Contents() != "" ==> path.Contents()[0] == '/')
    modifies path, path.data
    ensures path.Valid() && path.Contents() == Popped(old(path.Contents()))
    ensures path.Contents() != "" ==> path.Contents()[0] == '/'
  {
    if path.length <= 1 { return; }
    if path.At(path.length - 1) == '/' { path.Pop(1); }
    PopName(path);
    if path.length > 1 { path.Pop(1); }
  }

  /** `push_component`: the component goes on the path, and is empty afterwards. */
  method PushComponent(path: Str, component: Str)
    requires path.Valid() && component.Valid() && path != component && path.data != component.data
    requires path.Size() == MAX_PATH && (path.Contents() != "" ==> path.Contents()[0] == '/')
    modifies path, path.data, component, component.data
    ensures path.Valid() && component.Valid() && component.Contents() == ""
    ensures path.Contents() == Pushed(old(path.Contents()), old(component.Contents()))
    ensures path.Contents() != "" ==> path.Contents()[0] == '/'
  {
    var c := component.data[..component.length];
    if c == ".." {
      PopPathComponent(path);
    } else if c == "." {
    } else if component.length != 0 {
      if path.length == 0 || path.At(path.length - 1) != '/' {
        path.Push('/');
      }
      path.Append(c);
    }
    component.Clear();
  }

  /** What the first character of a path decides. */
  lemma FirstChar(wd: string, s: string)
    requires s != "" && wd != "" && wd[0] == '/'
    ensures var p := Take("" + UntilNul(wd), MAX_PATH);
      && p != "" && p[0] == '/'
      && (s[0] == '/' ==> PushAll("/", Cut("", s[1..])) == Canonicalised(wd, s))
      && (s[0] != '/' ==> PushAll(p, Cut(Take("" + [s[0]], MAX_NAME), s[1..])) == Canonicalised(wd, s))
  {
    assert s[0..] == s;
    ReadOne(Take(UntilNul(wd), MAX_PATH), "", s, 0);
    assert "" + UntilNul(wd) == UntilNul(wd);
  }

  /** `canonicalise_path` */
  method CanonicalisePath(s: string, wd: string) returns (path: Str)
    requires wd != "" && wd[0] == '/'
    ensures fresh(path) && fresh(path.data) && path.Valid() && path.Contents() == Canonicalised(wd, s)
  {
    path := new Str(MAX_PATH);
    if s == "" {
      path.Push('/');
      return;
    }
    var component := new Str(MAX_NAME);
    FirstChar(wd, s);
    if s[0] == '/' {
      path.Push('/');
      assert path.Contents() == "/" && component.Contents() == "";
    } else {
      path.Append(wd);
      component.Push(s[0]);
      assert path.Contents() == Take("" + UntilNul(wd), MAX_PATH);
      assert component.Contents() == Take("" + [s[0]], MAX_NAME);
    }
    CollectComponents(path, component, s, 1, Canonicalised(wd, s));
  }

  /** A slash ends the component; any other character is part of it. */
  method ReadChar(path: Str, component: Str, c: char)
    requires path.Valid() && component.Valid() && path != component && path.data != component.data
    requires path.Size() == MAX_PATH && component.Size() == MAX_NAME
    requires path.Contents() != "" ==> path.Contents()[0] == '/'
    modifies path, path.data, component, component.data
    ensures path.Valid() && component.Valid()
    ensures path.Contents() != "" ==> path.Contents()[0] == '/'
    ensures path.Contents() == if c == '/' then Pushed(old(path.Contents()), old(component.Contents())) else old(path.Contents())
    ensures component.Contents() == if c == '/' then "" else Take(old(component.Contents()) + [c], MAX_NAME)
  {
    if c == '/' {
      PushComponent(path, component);
    } else {
      component.Push(c);
    }
  }

  /** The loop of `canonicalise_path` over the rest of the string, and the last component. */
  method CollectComponents(path: Str, component: Str, s: string, from: nat, ghost result: string)
    requires path.Valid() && component.Valid() && path != component && path.data != component.data
    requires path.Size() == MAX_PATH && component.Size() == MAX_NAME && from <= |s|
    requires path.Contents() != "" ==> path.Contents()[0] == '/'
    requires PushAll(path.Contents(), Cut(component.Contents(), s[from..])) == result
    modifies path, path.data, component, component.data
    ensures path.Valid() && path.Contents() == result
  {
    var i := from;
    while i < |s|
      invariant from <= i <= |s| && path.Valid() && component.Valid()
      invariant path.Contents() != "" ==> path.Contents()[0] == '/'
      invariant PushAll(path.Contents(), Cut(component.Contents(), s[i..])) == result
    {
      ReadOne(path.Contents(), component.Contents(), s, i);
      ReadChar(path, component, s[i]);
      i := i + 1;
    }
    assert s[i..] == "";
    ReadLast(path.Contents(), component.Contents());
    PushComponent(path, component);
  }

  /** One character of the rest. */
  lemma ReadOne(p: string, c: string, s: string, i: nat)
    requires i < |s|
    ensures PushAll(p, Cut(c, s[i..]))
         == if s[i] == '/' then PushAll(Pushed(p, c), Cut("", s[i + 1..])) else PushAll(p, Cut(Take(c + [s[i]], MAX_NAME), s[i + 1..]))
  {
    var rest := s[i..];
    assert rest[0] == s[i] && rest[1..] == s[i + 1..];
    if s[i] == '/' {
      assert Cut(c, rest) == [c] + Cut("", s[i + 1..]);
      assert Cut(c, rest)[0] == c && Cut(c, rest)[1..] == Cut("", s[i + 1..]);
    }
  }

  lemma ReadLast(p: string, c: string)
    ensures PushAll(p, Cut(c, "")) == Pushed(p, c)
  {
    assert Cut(c, "") == [c] && [c][1..] == [];
    assert PushAll(Pushed(p, c), []) == Pushed(p, c);
  }

  method CopyName(path: Str, base: Str, from: nat)
    requires path.Valid() && base.Valid() && path != base && path.data != base.data
    requires base.Size() == MAX_NAME && base.Contents() == "" && from <= path.length
    modifies base, base.data
    ensures base.Valid() && base.Contents() == Take(path.Contents()[from..], MAX_NAME)
  {
    ghost var p := path.Contents();
    var i := from;
    while i < path.length
      invariant from <= i <= path.length && path.Valid() && path.Contents() == p && base.Valid()
      invariant base.Contents() == Take(p[from..i], MAX_NAME)
    {
      assert p[from..i + 1] == p[from..i] + [p[i]];
      base.Push(path.At(i));
      i := i + 1;
    }
    assert p[from..i] == p[from..];
  }

  /** `basename`: the last name comes off the path. */
  method Basename(path: Str) returns (base: Str)
    requires path.Valid() && path.Size() == MAX_PATH && path.Contents() != "" && path.Contents()[0] == '/'
    modifies path, path.data
    ensures fresh(base) && fresh(base.data) && base.Valid() && path.Valid()
    ensures if old(path.Contents()) == "/" then base.Contents() == path.Contents() == "/"
            else base.Contents() == Base(old(path.Contents())) && path.Contents() == Parent(old(path.Contents()))
  {
    ghost var p := path.Contents();
    base := new Str(MAX_NAME);
    if path.data[..path.length] == "/" {
      base.Push('/');
      return;
    }
    var slash := path.length - 1;
    while path.At(slash) != '/'
      invariant 0 <= slash < path.length && path.Valid() && path.Contents() == p
      invariant forall i :: slash < i < |p| ==> p[i] != '/'
      decreases slash
    {
      slash := slash - 1;
    }
    UpToSlashAt(p, slash + 1);
    CopyName(path, base, slash + 1);
    path.Pop(base.length + 1);
    if path.length == 0 { path.Push('/'); }
  }
}
