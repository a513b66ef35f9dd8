/**
  `split_args` of src/user/shell/main.cc: a command line is split into
  arguments in place, while its escape codes are decoded.
 */
module Tokenizer {
  const MAX_ARGS := 32
  const MAX_CMDLINE := 256

  const BACKSLASH := '\\'
  const NUL := '\0'

  /** What an escaped character stands for. */
  function Decode(c: char): char {
    if c == 'n' then '\n' else if c == 'r' then '\r' else if c == 'e' then '\U{1b}' else if c == 'f' then '\U{0c}' else c
  }

  function Finish(cur: string): seq<string> { if cur == "" then [] else [cur] }

  /** The arguments of the rest of a line, when `cur` has been read of the first one. */
  function Scan(s: string, cur: string, escaped: bool): (tokens: seq<string>)
    ensures |Finish(cur)| <= |tokens|
    decreases |s|
  {
    if s == "" then Finish(cur)
    else if escaped then Scan(s[1..], cur + [Decode(s[0])], false)
    else if s[0] == ' ' then Finish(cur) + Scan(s[1..], "", false)
    else if s[0] == BACKSLASH then Scan(s[1..], cur, true)
    else Scan(s[1..], cur + [s[0]], false)
  }

  /** The arguments of a line: the reference for `split_args`. */
  function Tokens(line: string): seq<string> { Scan(line, "", false) }

  /**
    The number of arguments that a space ends. After that many `split_args`
    looks at the next entry of its array, which has MAX_ARGS entries.
   */
  function Ended(s: string, cur: string, escaped: bool): nat
    decreases |s|
  {
    if s == "" then 0
    else if escaped then Ended(s[1..], cur + [Decode(s[0])], false)
    else if s[0] == ' ' then |Finish(cur)| + Ended(s[1..], "", false)
    else if s[0] == BACKSLASH then Ended(s[1..], cur, true)
    else Ended(s[1..], cur + [s[0]], false)
  }

  /** The line has room in the array: at most MAX_ARGS arguments, the last of which is not ended by a space. */
  predicate InBounds(line: string) { Ended(line, "", false) < MAX_ARGS }

  /** At most the last argument is not ended by a space. */
  lemma {:induction false} EndedBelow(s: string, cur: string, escaped: bool)
    ensures Ended(s, cur, escaped) <= |Scan(s, cur, escaped)| <= Ended(s, cur, escaped) + 1
    decreases |s|
  {
    if s == "" {
    } else if escaped {
      EndedBelow(s[1..], cur + [Decode(s[0])], false);
    } else if s[0] == ' ' {
      EndedBelow(s[1..], "", false);
    } else if s[0] == BACKSLASH {
      EndedBelow(s[1..], cur, true);
    } else {
      EndedBelow(s[1..], cur + [s[0]], false);
    }
  }

  /** Lines with fewer than MAX_ARGS arguments are in bounds, and lines with more than that are not. */
  lemma BoundsOf(line: string)
    ensures |Tokens(line)| < MAX_ARGS ==> InBounds(line)
    ensures InBounds(line) ==> |Tokens(line)| <= MAX_ARGS
  {
    EndedBelow(line, "", false);
  }

  // ---------------------------------------------------------------------
  // Quoting
  // ---------------------------------------------------------------------

  /** An argument as it has to be typed. */
  function Quoted(arg: string): string { if arg == "" then "" else QuotedChar(arg[0]) + Quoted(arg[1..]) }

  function QuotedChar(c: char): string { if c == ' ' || c == BACKSLASH then [BACKSLASH, c] else [c] }

  function Line(args: seq<string>): string {
    if args == [] then "" else Quoted(args[0]) + " " + Line(args[1..])
  }

  lemma ScanChar(c: char, rest: string, cur: string)
    ensures Scan(QuotedChar(c) + rest, cur, false) == Scan(rest, cur + [c], false)
  {
    var s := QuotedChar(c) + rest;
    if c == ' ' || c == BACKSLASH {
      assert s[0] == BACKSLASH && s[1..] == [c] + rest;
      assert s[1..][0] == c && s[1..][1..] == rest;
      assert Scan(s, cur, false) == Scan(s[1..], cur, true);
    } else {
      assert s[0] == c && s[1..] == rest;
    }
  }

  lemma {:induction false} FirstQuoted(arg: string, rest: string, cur: string)
    requires arg != ""
    ensures Quoted(arg) + rest == QuotedChar(arg[0]) + (Quoted(arg[1..]) + rest)
    ensures cur + arg == cur + [arg[0]] + arg[1..]
  {
    var q, t := QuotedChar(arg[0]), Quoted(arg[1..]);
    assert Quoted(arg) == q + t;
    assert q + t + rest == q + (t + rest);
  }

  lemma {:induction false} ScanQuoted(arg: string, rest: string, cur: string)
    ensures Scan(Quoted(arg) + rest, cur, false) == Scan(rest, cur + arg, false)
    decreases |arg|
  {
    if arg == "" {
      assert Quoted(arg) + rest == rest && cur + arg == cur;
    } else {
      var c, tail := arg[0], arg[1..];
      FirstQuoted(arg, rest, cur);
      ScanChar(c, Quoted(tail) + rest, cur);
      ScanQuoted(tail, rest, cur + [c]);
    }
  }

  /** Typing quoted arguments gives these arguments. */
  lemma {:induction false} QuotingRoundTrip(args: seq<string>)
    requires forall i :: 0 <= i < |args| ==> args[i] != ""
    ensures Tokens(Line(args)) == args
    decreases |args|
  {
    if args != [] {
      var rest := " " + Line(args[1..]);
      assert Line(args) == Quoted(args[0]) + rest;
      ScanQuoted(args[0], rest, "");
      assert "" + args[0] == args[0] && rest[1..] == Line(args[1..]);
      QuotingRoundTrip(args[1..]);
    }
  }

  // ---------------------------------------------------------------------
  // Escape codes
  // ---------------------------------------------------------------------

  /** A character, and how it is typed. */
  datatype Spelling = Spelling(typed: string, read: char)

  /**
    The ways to type a character: as itself, unless it is a space or a backslash;
    behind a backslash, unless it is one of the letters n, r, e and f; and these
    letters behind a backslash stand for the characters 10, 13, 27 and 12.
   */
  predicate Spells(x: Spelling) {
    || (x.typed == [x.read] && x.read != ' ' && x.read != BACKSLASH)
    || (x.typed == [BACKSLASH, x.read] && x.read !in "nref")
    || (x.typed == [BACKSLASH, 'n'] && x.read as int == 10)
    || (x.typed == [BACKSLASH, 'r'] && x.read as int == 13)
    || (x.typed == [BACKSLASH, 'e'] && x.read as int == 27)
    || (x.typed == [BACKSLASH, 'f'] && x.read as int == 12)
  }

  predicate SpelledWord(word: seq<Spelling>) { forall x :: x in word ==> Spells(x) }

  function Typed(word: seq<Spelling>): string { if word == [] then "" else word[0].typed + Typed(word[1..]) }

  function Read(word: seq<Spelling>): string { if word == [] then "" else [word[0].read] + Read(word[1..]) }

  /** A line of words with some spaces behind each. */
  function TypedLine(words: seq<seq<Spelling>>, gaps: seq<nat>): string
    requires |gaps| == |words|
  {
    if words == [] then "" else Typed(words[0]) + (" " + Spaces(gaps[0]) + TypedLine(words[1..], gaps[1..]))
  }

  function Spaces(n: nat): string { if n == 0 then "" else " " + Spaces(n - 1) }

  function ReadAll(words: seq<seq<Spelling>>): seq<string> { if words == [] then [] else [Read(words[0])] + ReadAll(words[1..]) }

  lemma ScanSpelled(x: Spelling, rest: string, cur: string)
    requires Spells(x)
    ensures Scan(x.typed + rest, cur, false) == Scan(rest, cur + [x.read], false)
  {
    var s := x.typed + rest;
    if |x.typed| == 2 {
      var c := x.typed[1];
      assert s[0] == BACKSLASH && s[1..] == [c] + rest;
      assert s[1..][0] == c && s[1..][1..] == rest;
      assert c == x.read && c !in "nref" ==> c != 'n' && c != 'r' && c != 'e' && c != 'f';
      assert Decode(c) == x.read;
      assert Scan(s, cur, false) == Scan(s[1..], cur, true);
    } else {
      assert s[0] == x.read && s[1..] == rest;
    }
  }

  lemma {:induction false} FirstSpelling(word: seq<Spelling>, rest: string, cur: string)
    requires word != []
    ensures Typed(word) + rest == word[0].typed + (Typed(word[1..]) + rest)
    ensures cur + Read(word) == cur + [word[0].read] + Read(word[1..])
  {}

  lemma {:induction false} ScanWord(word: seq<Spelling>, rest: string, cur: string)
    requires SpelledWord(word)
    ensures Scan(Typed(word) + rest, cur, false) == Scan(rest, cur + Read(word), false)
    decreases |word|
  {
    if word == [] {
      assert Typed(word) + rest == rest && cur + Read(word) == cur;
    } else {
      var x, tail := word[0], word[1..];
      FirstSpelling(word, rest, cur);
      ScanSpelled(x, Typed(tail) + rest, cur);
      ScanWord(tail, rest, cur + [x.read]);
    }
  }

  lemma {:induction false} ScanSpaces(n: nat, rest: string)
    ensures Scan(Spaces(n) + rest, "", false) == Scan(rest, "", false)
  {
    if n == 0 {
      assert Spaces(n) + rest == rest;
    } else {
      var s := Spaces(n) + rest;
      assert s[0] == ' ' && s[1..] == Spaces(n - 1) + rest;
      ScanSpaces(n - 1, rest);
    }
  }

  /** Words are read as they were meant, however their characters are typed and however many spaces are between them. */
  lemma {:induction false} SpellingRoundTrip(words: seq<seq<Spelling>>, gaps: seq<nat>)
    requires |gaps| == |words|
    requires forall k :: 0 <= k < |words| ==> words[k] != [] && SpelledWord(words[k])
    ensures Tokens(TypedLine(words, gaps)) == ReadAll(words)
    decreases |words|
  {
    if words != [] {
      var line := TypedLine(words[1..], gaps[1..]);
      var rest := " " + Spaces(gaps[0]) + line;
      ScanWord(words[0], rest, "");
      assert "" + Read(words[0]) == Read(words[0]);
      assert rest[0] == ' ' && rest[1..] == Spaces(gaps[0]) + line;
      ScanSpaces(gaps[0], line);
      SpellingRoundTrip(words[1..], gaps[1..]);
    }
  }

  /** Every character can be typed, and the four codes are the only way in which a letter stands for something else. */
  lemma EveryCharSpelled(c: char)
    ensures Spells(Spelling(QuotedChar(c), c))
    ensures forall d :: Spells(Spelling([BACKSLASH, c], d)) <==>
      d as int == if c == 'n' then 10 else if c == 'r' then 13 else if c == 'e' then 27 else if c == 'f' then 12 else c as int
  {
    forall d ensures Spells(Spelling([BACKSLASH, c], d)) <==>
      d as int == if c == 'n' then 10 else if c == 'r' then 13 else if c == 'e' then 27 else if c == 'f' then 12 else c as int
    {
      assert [BACKSLASH, c][1] == c;
    }
  }

  lemma EndedChar(c: char, rest: string, cur: string)
    ensures Ended(QuotedChar(c) + rest, cur, false) == Ended(rest, cur + [c], false)
  {
    var s := QuotedChar(c) + rest;
    if c == ' ' || c == BACKSLASH {
      assert s[0] == BACKSLASH && s[1..] == [c] + rest;
      assert s[1..][0] == c && s[1..][1..] == rest;
      assert Ended(s, cur, false) == Ended(s[1..], cur, true);
    } else {
      assert s[0] == c && s[1..] == rest;
    }
  }

  lemma {:induction false} EndedQuoted(arg: string, rest: string, cur: string)
    ensures Ended(Quoted(arg) + rest, cur, false) == Ended(rest, cur + arg, false)
    decreases |arg|
  {
    if arg == "" {
      assert Quoted(arg) + rest == rest && cur + arg == cur;
    } else {
      var c, tail := arg[0], arg[1..];
      FirstQuoted(arg, rest, cur);
      EndedChar(c, Quoted(tail) + rest, cur);
      EndedQuoted(tail, rest, cur + [c]);
    }
  }

  /** Typing arguments with a space behind each is in bounds exactly when there are fewer than MAX_ARGS of them. */
  lemma {:induction false} LineBounds(args: seq<string>)
    requires forall i :: 0 <= i < |args| ==> args[i] != ""
    ensures Ended(Line(args), "", false) == |args| && (InBounds(Line(args)) <==> |args| < MAX_ARGS)
    decreases |args|
  {
    if args != [] {
      var rest := " " + Line(args[1..]);
      assert Line(args) == Quoted(args[0]) + rest;
      EndedQuoted(args[0], rest, "");
      assert "" + args[0] == args[0] && rest[1..] == Line(args[1..]);
      LineBounds(args[1..]);
    }
  }

  // ---------------------------------------------------------------------
  // In place
  // ---------------------------------------------------------------------

  /** A part of the command line. */
  datatype View = View(start: nat, length: nat)

  /** The view of token k lies in the part of the line that has been written, and reads as the token. */
  ghost predicate Reads(line: seq<char>, limit: int, v: View, token: string) {
    v.start + v.length <= limit <= |line| && line[v.start..v.start + v.length] == token
  }

  ghost predicate ReadsAll(line: seq<char>, limit: int, views: seq<View>, tokens: seq<string>) {
    |tokens| <= |views| && forall k :: 0 <= k < |tokens| ==> Reads(line, limit, views[k], tokens[k])
  }

  /** The views of finished tokens are before the place that is written next. */
  lemma Written(line: seq<char>, line': seq<char>, limit: int, views: seq<View>, views': seq<View>, tokens: seq<string>, limit': int)
    requires ReadsAll(line, limit, views, tokens) && limit <= limit' <= |line'| && |line| == |line'| && |views'| == |views|
    requires forall k :: 0 <= k < limit ==> line'[k] == line[k]
    requires forall k :: 0 <= k < |tokens| ==> views'[k] == views[k]
    ensures ReadsAll(line', limit', views', tokens)
  {
    forall k | 0 <= k < |tokens| ensures Reads(line', limit', views'[k], tokens[k]) {
      assert Reads(line, limit, views[k], tokens[k]);
      var v := views[k];
      assert line'[v.start..v.start + v.length] == line[v.start..v.start + v.length];
    }
  }

  /**
    The loop of `split_args`: the line `orig` now reads d, i is the place to
    write and i + e the place to read; `tokens` are the finished arguments with
    the views av, and `cur` the beginning of the next one.
   */
  ghost predicate Running(orig: string, d: seq<char>, av: seq<View>, i: int, e: int, escaped: bool, tokens: seq<string>, cur: string) {
    && |orig| < |d| && |av| == MAX_ARGS && 0 <= i && 0 <= e && i + e <= |orig| && |tokens| < MAX_ARGS
    && Tokens(orig) == tokens + Scan(orig[i + e..], cur, escaped)
    && Ended(orig, "", false) == |tokens| + Ended(orig[i + e..], cur, escaped)
    && d[i + e..|orig|] == orig[i + e..]
    && ReadsAll(d, i, av, tokens)
    && (forall k :: |tokens| < k < MAX_ARGS ==> av[k].length == 0)
    && Current(d, i, av[|tokens|], cur)
  }

  /** The view of the argument that is being read ends at the place to write. */
  ghost predicate Current(d: seq<char>, i: int, v: View, cur: string) {
    v.length == |cur| && (cur != "" ==> v.start + |cur| == i <= |d| && d[v.start..i] == cur)
  }

  /** Only the places from i up to the place to read are written. */
  lemma RestKept(orig: string, d: seq<char>, i: int, e: int, c: char)
    requires |orig| < |d| && 0 <= i && 0 <= e && i + e < |orig| && d[i + e..|orig|] == orig[i + e..]
    ensures d[i := c][i + e + 1..|orig|] == orig[i + e + 1..]
  {
    var d' := d[i := c];
    forall k | i + e + 1 <= k < |orig| ensures d'[k] == orig[k] { assert d[i + e..|orig|][k - (i + e)] == orig[i + e..][k - (i + e)]; }
  }

  /** The character to read next. */
  lemma NextChar(orig: string, d: seq<char>, i: int, e: int)
    requires |orig| < |d| && 0 <= i && 0 <= e && i + e < |orig| && d[i + e..|orig|] == orig[i + e..]
    ensures d[i + e] == orig[i + e] && orig[i + e..][0] == orig[i + e] && orig[i + e..][1..] == orig[i + e + 1..]
  {
    assert d[i + e..|orig|][0] == orig[i + e..][0];
  }

  /** A character of the current argument. */
  lemma PutStep(orig: string, d: seq<char>, av: seq<View>, i: int, e: int, escaped: bool, tokens: seq<string>, cur: string, av': seq<View>)
    requires Running(orig, d, av, i, e, escaped, tokens, cur) && i + e < |orig|
    requires !escaped ==> orig[i + e] != ' ' && orig[i + e] != BACKSLASH
    requires av' == av[|tokens| := View(if cur == "" then i else av[|tokens|].start, |cur| + 1)]
    ensures var w := if escaped then Decode(orig[i + e]) else orig[i + e];
      Running(orig, d[i := w], av', i + 1, e, false, tokens, cur + [w])
  {
    var w := if escaped then Decode(orig[i + e]) else orig[i + e];
    NextChar(orig, d, i, e);
    RestKept(orig, d, i, e, w);
    Written(d, d[i := w], i, av, av', tokens, i + 1);
    var v, v' := av[|tokens|], av'[|tokens|];
    if cur != "" { assert d[i := w][v.start..i] == d[v.start..i]; }
    assert d[i := w][v'.start..i + 1] == d[i := w][v'.start..i] + [w];
  }

  /** A space ends the current argument, if there is one. */
  lemma SpaceStep(orig: string, d: seq<char>, av: seq<View>, i: int, e: int, tokens: seq<string>, cur: string)
    requires Running(orig, d, av, i, e, false, tokens, cur) && i + e < |orig| && orig[i + e] == ' '
    ensures var tokens' := tokens + Finish(cur);
      if |tokens'| < MAX_ARGS then Running(orig, d[i := NUL], av, i + 1, e, false, tokens', "") else !InBounds(orig)
  {
    NextChar(orig, d, i, e);
    RestKept(orig, d, i, e, NUL);
    var rest := Scan(orig[i + e + 1..], "", false);
    assert Scan(orig[i + e..], cur, false) == Finish(cur) + rest;
    assert tokens + (Finish(cur) + rest) == (tokens + Finish(cur)) + rest;
    Written(d, d[i := NUL], i, av, av, tokens, i + 1);
    if cur != "" {
      var v := av[|tokens|];
      assert d[i := NUL][v.start..v.start + v.length] == cur;
    }
  }

  /** A backslash makes the next character an escape code. */
  lemma EscapeStep(orig: string, d: seq<char>, av: seq<View>, i: int, e: int, tokens: seq<string>, cur: string)
    requires Running(orig, d, av, i, e, false, tokens, cur) && i + e < |orig| && orig[i + e] == BACKSLASH
    ensures Running(orig, d[i := NUL], av, i, e + 1, true, tokens, cur)
  {
    NextChar(orig, d, i, e);
    RestKept(orig, d, i, e, NUL);
    Written(d, d[i := NUL], i, av, av, tokens, i);
    var v := av[|tokens|];
    if cur != "" { assert d[i := NUL][v.start..i] == d[v.start..i]; }
  }

  /** At the end of the line the current argument is the last one. */
  lemma EndStep(orig: string, d: seq<char>, av: seq<View>, i: int, e: int, escaped: bool, tokens: seq<string>, cur: string, d': seq<char>)
    requires Running(orig, d, av, i, e, escaped, tokens, cur) && i + e == |orig|
    requires d' == d || d' == d[i := NUL]
    ensures InBounds(orig) && Tokens(orig) == tokens + Finish(cur) && ReadsAll(d', |orig|, av, Tokens(orig))
  {
    assert orig[i + e..] == "";
    Written(d, d', i, av, av, tokens, |orig|);
    if cur != "" {
      var v := av[|tokens|];
      assert d'[v.start..v.start + v.length] == cur;
    }
  }

  class Splitter {
    /** The characters of the command line, with its terminating NUL, and its length. */
    const data: array<char>
    const length: nat
    const argv: array<View>
    var argc: nat

    ghost predicate Valid()
      reads this
    {
      length < data.Length && argv.Length == MAX_ARGS
    }

    ghost function Text(): string
      requires Valid()
      reads this, data
    {
      data[..length]
    }

    constructor (line: string)
      requires |line| <= MAX_CMDLINE
      ensures Valid() && Text() == line && fresh(data) && fresh(argv) && argc == 0
      ensures forall k :: 0 <= k < MAX_ARGS ==> argv[k].length == 0
    {
      var d := new char[MAX_CMDLINE + 1](i => if 0 <= i < |line| then line[i] else '\0');
      data, length := d, |line|;
      argv := new View[MAX_ARGS](_ => View(0, 0));
      argc := 0;
    }

    /** A character of an argument is written at place i. */
    method PutChar(i: nat, c: char)
      requires Valid() && i < length && argc < MAX_ARGS
      modifies data, argv
      ensures data[..] == old(data[..])[i := c]
      ensures var v := old(argv[..])[argc];
        argv[..] == old(argv[..])[argc := View(if v.length == 0 then i else v.start, v.length + 1)]
    {
      if argv[argc].length == 0 { argv[argc] := argv[argc].(start := i); }
      data[i] := c;
      argv[argc] := argv[argc].(length := argv[argc].length + 1);
    }

    /** A character of the current argument is taken over. */
    method TakeChar(ghost orig: string, i: nat, ghost e: nat, ghost escaped: bool, ghost tokens: seq<string>, ghost cur: string, c: char)
      returns (ghost cur': string)
      requires Valid() && Running(orig, data[..], argv[..], i, e, escaped, tokens, cur) && i + e < |orig| && argc == |tokens|
      requires |orig| == length && c == if escaped then Decode(orig[i + e]) else orig[i + e]
      requires !escaped ==> c != ' ' && c != BACKSLASH
      modifies data, argv
      ensures cur' == cur + [c] && Running(orig, data[..], argv[..], i + 1, e, false, tokens, cur')
    {
      cur' := cur + [c];
      PutStep(orig, data[..], argv[..], i, e, escaped, tokens, cur,
              argv[..][argc := View(if cur == "" then i else argv[argc].start, |cur| + 1)]);
      PutChar(i, c);
    }

    /** A space after an argument, or between arguments. */
    method EndArgument(ghost orig: string, i: nat, ghost e: nat, ghost tokens: seq<string>, ghost cur: string)
      returns (ghost tokens': seq<string>)
      requires Valid() && Running(orig, data[..], argv[..], i, e, false, tokens, cur) && i + e < |orig| && argc == |tokens|
      requires |orig| == length && orig[i + e] == ' '
      modifies this`argc, data
      ensures argc == |tokens'| <= MAX_ARGS
      ensures if argc < MAX_ARGS then Running(orig, data[..], argv[..], i + 1, e, false, tokens', "") else !InBounds(orig)
    {
      SpaceStep(orig, data[..], argv[..], i, e, tokens, cur);
      tokens' := tokens + Finish(cur);
      data[i] := NUL;
      if argv[argc].length != 0 { argc := argc + 1; }
    }

    /** A backslash. */
    method TakeEscape(ghost orig: string, i: nat, ghost e: nat, ghost tokens: seq<string>, ghost cur: string)
      requires Valid() && Running(orig, data[..], argv[..], i, e, false, tokens, cur) && i + e < |orig| == length
      requires orig[i + e] == BACKSLASH
      modifies data
      ensures Running(orig, data[..], argv[..], i, e + 1, true, tokens, cur)
    {
      EscapeStep(orig, data[..], argv[..], i, e, tokens, cur);
      data[i] := NUL;
    }

    /** The end of the line, and of the last argument; what was written last is ended when escapes have made room. */
    method EndLine(ghost orig: string, i: nat, ghost e: nat, ghost escaped: bool, ghost tokens: seq<string>, ghost cur: string)
      requires Valid() && Running(orig, data[..], argv[..], i, e, escaped, tokens, cur) && i + e == |orig| == length
      requires argc == |tokens|
      modifies this`argc, data
      ensures InBounds(orig) && argc == |Tokens(orig)| && ReadsAll(data[..], length, argv[..], Tokens(orig))
    {
      EndStep(orig, data[..], argv[..], i, e, escaped, tokens, cur, if i < length then data[..][i := NUL] else data[..]);
      if i < length { data[i] := NUL; }
      if argv[argc].length != 0 { argc := argc + 1; }
    }

    /**
      `split_args`: the views of the result read, in the line as it is in the
      end, as the arguments of the line as it was; unless the code looks behind
      its array, which it does exactly when spaces end MAX_ARGS
      arguments or more.
     */
    method SplitArgs() returns (overrun: bool)
      requires Valid() && argc == 0
      requires forall k :: 0 <= k < MAX_ARGS ==> argv[k].length == 0
      modifies this`argc, data, argv
      ensures Valid() && (overrun <==> !InBounds(old(Text())))
      ensures !overrun ==> argc == |Tokens(old(Text()))| && ReadsAll(data[..], length, argv[..], Tokens(old(Text())))
    {
      overrun := false;
      ghost var orig := Text();
      ghost var tokens: seq<string>, cur := [], "";
      var escaped, escapes, i := false, 0, 0;
      assert [] + Scan(orig, "", false) == Scan(orig, "", false) && orig[0..] == orig;
      while i < length
        invariant Valid() && Running(orig, data[..], argv[..], i, escapes, escaped, tokens, cur) && argc == |tokens|
        decreases length - i, if escaped then 0 else 1
      {
        if i + escapes >= length {
          EndLine(orig, i, escapes, escaped, tokens, cur);
          return;
        }
        NextChar(orig, data[..], i, escapes);
        var src := data[i + escapes];
        if escaped {
          cur := TakeChar(orig, i, escapes, escaped, tokens, cur, Decode(src));
          escaped := false;
          i := i + 1;
        } else if src == ' ' {
          tokens := EndArgument(orig, i, escapes, tokens, cur);
          cur := "";
          // Whatever follows, argv[argc] is looked at again: at the latest behind the loop.
          if argc == MAX_ARGS { return true; }
          i := i + 1;
        } else if src == BACKSLASH {
          TakeEscape(orig, i, escapes, tokens, cur);
          escaped := true;
          escapes := escapes + 1;
        } else {
          cur := TakeChar(orig, i, escapes, escaped, tokens, cur, src);
          i := i + 1;
        }
      }
      EndLine(orig, i, escapes, escaped, tokens, cur);
    }
  }
}
