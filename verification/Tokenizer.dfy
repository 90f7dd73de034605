/** The shell's argument tokenizer, which cuts a C string in place. */
module Tokenizer {
  import opened Common

  const MAX_ARGC := 16
  const NUL := '\0'

  predicate IsQuote(c: char) { c == '"' || c == '\'' }

  // ---- On strings --------------------------------------------------------------------

  /** The first occurrence of c, or the length. */
  function Find(s: string, c: char): (k: nat)
    ensures k <= |s| && c !in s[..k] && (k < |s| ==> s[k] == c)
  {
    if s == "" || s[0] == c then 0
    else
      var k := 1 + Find(s[1..], c);
      assert s[..k] == [s[0]] + s[1..][..k - 1];
      k
  }

  function SkipSpaces(s: string): (r: string)
    ensures |r| <= |s| && (r != "" ==> r[0] != ' ')
  {
    if s != "" && s[0] == ' ' then SkipSpaces(s[1..]) else s
  }

  /** Cut at the first separator; the spaces after it are skipped. */
  function Cut(t: string, sep: char): (r: (string, Option<string>))
    ensures sep !in r.0 && (r.1.Some? ==> |r.1.value| < |t|)
  {
    var k := Find(t, sep);
    if k == |t| then (t, None)
    else
      var next := SkipSpaces(t[k + 1..]);
      (t[..k], if next == "" then None else Some(next))
  }

  /** What `get_next_param` cuts off, and what it leaves. */
  function NextParam(s: string): (r: (string, Option<string>))
    ensures r.1.Some? ==> |r.1.value| < |s|
  {
    if s != "" && IsQuote(s[0]) then Cut(s[1..], s[0]) else Cut(s, ' ')
  }

  /** `parse_cmd`: every call consumes input, so the parse ends. */
  function Parse(s: Option<string>, room: nat): (args: seq<string>)
    ensures |args| <= room
    decreases room
  {
    if s.None? || room == 0 then [] else [NextParam(s.value).0] + Parse(NextParam(s.value).1, room - 1)
  }

  // ---- Printing, the inverse ---------------------------------------------------------

  predicate NeedsQuotes(arg: string) {
    arg == "" || ' ' in arg || IsQuote(arg[0])
  }

  /** The argument can be written so that it is read back. */
  predicate Expressible(arg: string) {
    NeedsQuotes(arg) ==> '"' !in arg || '\'' !in arg
  }

  function Quoted(arg: string): (r: string)
    ensures r != "" && r[0] != ' '
  {
    if !NeedsQuotes(arg) then arg
    else if '"' !in arg then ['"'] + arg + ['"']
    else ['\''] + arg + ['\'']
  }

  function Print(args: seq<string>): (r: Option<string>)
    ensures r.Some? <==> args != []
    ensures r.Some? ==> r.value != "" && r.value[0] != ' '
  {
    if args == [] then None
    else if |args| == 1 then Some(Quoted(args[0]))
    else Some(Quoted(args[0]) + " " + Print(args[1..]).value)
  }

  lemma {:induction false} FindFirst(head: string, c: char, tail: string)
    requires c !in head
    ensures Find(head + [c] + tail, c) == |head|
  {
    var s := head + [c] + tail;
    if head != "" {
      assert s[1..] == head[1..] + [c] + tail;
      FindFirst(head[1..], c, tail);
    }
  }

  lemma {:induction false} FindNone(s: string, c: char)
    requires c !in s
    ensures Find(s, c) == |s|
  {
  }

  lemma SkipNothing(s: string)
    requires s == "" || s[0] != ' '
    ensures SkipSpaces(s) == s && SkipSpaces(" " + s) == s
  {
    assert (" " + s)[1..] == s;
  }

  lemma CutAt(head: string, sep: char, tail: string)
    requires sep !in head
    ensures var next := SkipSpaces(tail);
            Cut(head + [sep] + tail, sep) == (head, if next == "" then None else Some(next))
  {
    var t := head + [sep] + tail;
    FindFirst(head, sep, tail);
    assert t[..|head|] == head && t[|head| + 1..] == tail;
  }

  /** What follows an argument on the line. */
  function More(tail: Option<string>): string { if tail.Some? then " " + tail.value else "" }

  lemma QuotedReadsBack(arg: string, q: char, tail: Option<string>)
    requires IsQuote(q) && q !in arg && (tail.Some? ==> tail.value != "" && tail.value[0] != ' ')
    ensures NextParam([q] + arg + [q] + More(tail)) == (arg, tail)
  {
    var s := [q] + arg + [q] + More(tail);
    assert s[1..] == arg + [q] + More(tail);
    CutAt(arg, q, More(tail));
    SkipNothing(if tail.Some? then tail.value else "");
  }

  lemma PlainReadsBack(arg: string, tail: Option<string>)
    requires !NeedsQuotes(arg) && (tail.Some? ==> tail.value != "" && tail.value[0] != ' ')
    ensures NextParam(arg + More(tail)) == (arg, tail)
  {
    var s := arg + More(tail);
    if tail.Some? {
      assert s == arg + [' '] + tail.value;
      CutAt(arg, ' ', tail.value);
      SkipNothing(tail.value);
    } else {
      assert s == arg;
      FindNone(arg, ' ');
    }
  }

  /** An argument printed before a tail is cut off again, and the tail is left. */
  lemma ReadsBack(arg: string, tail: Option<string>)
    requires Expressible(arg) && (tail.Some? ==> tail.value != "" && tail.value[0] != ' ')
    ensures NextParam(Quoted(arg) + More(tail)) == (arg, tail)
  {
    if !NeedsQuotes(arg) {
      PlainReadsBack(arg, tail);
    } else {
      QuotedReadsBack(arg, if '"' !in arg then '"' else '\'', tail);
    }
  }

  lemma PrintUnfold(args: seq<string>)
    requires args != []
    ensures Print(args).value == Quoted(args[0]) + More(Print(args[1..]))
  {
    var r := Print(args[1..]);
    if |args| == 1 {
      assert args[1..] == [] && Quoted(args[0]) + "" == Quoted(args[0]);
    } else {
      assert Quoted(args[0]) + " " + r.value == Quoted(args[0]) + (" " + r.value);
    }
  }

  lemma {:induction false} WholeRoundTrip(args: seq<string>, room: nat)
    requires |args| <= room && forall i :: 0 <= i < |args| ==> Expressible(args[i])
    ensures Parse(Print(args), room) == args
  {
    if args == [] {
      assert Print(args) == None;
    } else {
      var rest := args[1..];
      calc {
        Parse(Print(args), room);
        { FirstReadsBack(args); ParseStep(Print(args), room, args[0], Print(rest)); }
        [args[0]] + Parse(Print(rest), room - 1);
        { WholeRoundTrip(rest, room - 1); }
        [args[0]] + rest;
        args;
      }
    }
  }

  /** Less room cuts the list short and changes nothing else. */
  lemma {:induction false} LessRoom(s: Option<string>, room: nat, more: nat)
    requires room <= more
    ensures Parse(s, room) == Parse(s, more)[..Min(|Parse(s, more)|, room)]
    decreases room
  {
    if s.Some? && room > 0 { LessRoom(NextParam(s.value).1, room - 1, more - 1); }
  }

  /** Printing any list of expressible arguments and tokenizing the result gives
      the list back, up to as many arguments as there is room for. */
  lemma RoundTrip(args: seq<string>, room: nat)
    requires forall i :: 0 <= i < |args| ==> Expressible(args[i])
    ensures Parse(Print(args), room) == args[..Min(|args|, room)]
  {
    var more := if room < |args| then |args| else room;
    WholeRoundTrip(args, more);
    LessRoom(Print(args), room, more);
  }

  lemma FirstReadsBack(args: seq<string>)
    requires args != [] && Expressible(args[0])
    ensures Print(args).Some? && NextParam(Print(args).value) == (args[0], Print(args[1..]))
  {
    PrintUnfold(args);
    ReadsBack(args[0], Print(args[1..]));
  }

  lemma ParseStep(s: Option<string>, room: nat, arg: string, rest: Option<string>)
    requires s.Some? && room > 0 && NextParam(s.value) == (arg, rest)
    ensures Parse(s, room) == [arg] + Parse(rest, room - 1)
  {
  }

  /** How any string is cut: an opening quote is left out and becomes the separator,
      the parameter reaches up to the first separator, the separator and the
      spaces after it are left out, and what then remains, if anything, is next. */
  lemma NextParamSplits(s: string) returns (spaces: nat)
    ensures var quoted := s != "" && (s[0] == '"' || s[0] == '\'');
            var sep := if quoted then s[0] else ' ';
            var body := if quoted then s[1..] else s;
            var (arg, next) := NextParam(s);
            && sep !in arg
            && (body == arg ==> next == None)
            && (body != arg ==> body == arg + [sep] + Blanks(spaces) + if next.Some? then next.value else "")
            && (next.Some? ==> next.value != "" && next.value[0] != ' ')
  {
    var quoted := s != "" && (s[0] == '"' || s[0] == '\'');
    var sep := if quoted then s[0] else ' ';
    var body := if quoted then s[1..] else s;
    var k := Find(body, sep);
    spaces := 0;
    if k < |body| {
      var tail := body[k + 1..];
      spaces := SkippedSpaces(tail);
      assert body == body[..k] + [sep] + tail;
      assert body[..k] + [sep] + (Blanks(spaces) + SkipSpaces(tail)) == body[..k] + [sep] + Blanks(spaces) + SkipSpaces(tail);
    } else {
      assert body[..k] == body;
    }
  }

  function Blanks(n: nat): string { seq(n, _ => ' ') }

  lemma {:induction false} SkippedSpaces(s: string) returns (n: nat)
    ensures s == Blanks(n) + SkipSpaces(s)
  {
    n := 0;
    if s != "" && s[0] == ' ' {
      n := SkippedSpaces(s[1..]);
      assert s == [' '] + s[1..];
      assert [' '] + Blanks(n) == Blanks(n + 1);
      n := n + 1;
    }
  }

  /** No other argument can be read at all: the tokenizer yields only expressible
      ones, so an argument survives exactly when it is expressible. */
  lemma OnlyExpressible(s: string)
    ensures Expressible(NextParam(s).0)
  {
    var arg := NextParam(s).0;
    if !(s != "" && IsQuote(s[0])) && arg != "" {
      assert arg[0] == s[0];
    }
  }

  lemma SurvivesIff(arg: string)
    ensures (exists s :: NextParam(s).0 == arg) <==> Expressible(arg)
  {
    if Expressible(arg) {
      ReadsBack(arg, None);
      assert NextParam(Quoted(arg) + More(None)).0 == arg;
    }
    forall s | NextParam(s).0 == arg
      ensures Expressible(arg)
    {
      OnlyExpressible(s);
    }
  }

  // ---- In place ----------------------------------------------------------------------

  /** A C string occupies cells a to e-1 and ends with the NUL at e. */
  ghost predicate IsStr(s: seq<char>, a: nat, e: nat) {
    a <= e < |s| && s[e] == NUL && forall i :: a <= i < e ==> s[i] != NUL
  }

  lemma {:induction false} FindIs(t: string, c: char, k: nat)
    requires k <= |t| && (forall i :: 0 <= i < k ==> t[i] != c) && (k < |t| ==> t[k] == c)
    ensures Find(t, c) == k
  {
    if k > 0 { FindIs(t[1..], c, k - 1); }
  }

  lemma {:induction false} SkipIs(t: string, j: nat)
    requires j <= |t| && (forall i :: 0 <= i < j ==> t[i] == ' ') && (j < |t| ==> t[j] != ' ')
    ensures SkipSpaces(t) == t[j..]
  {
    if j > 0 {
      SkipIs(t[1..], j - 1);
      assert t[1..][j - 1..] == t[j..];
    }
  }

  /** The scan of `strchr`, stopping at the separator or at the end. */
  method ScanFor(buf: array<char>, p: nat, sep: char, ghost e: nat) returns (k: nat)
    requires IsStr(buf[..], p, e) && sep != NUL
    ensures p <= k <= e && k - p == Find(buf[p..e], sep)
    ensures k < e <==> buf[k] == sep
  {
    k := p;
    while buf[k] != NUL && buf[k] != sep
      invariant p <= k <= e && forall i :: p <= i < k ==> buf[i] != sep
      decreases e - k
    {
      k := k + 1;
    }
    FindIs(buf[p..e], sep, k - p);
  }

  method SkipBlanks(buf: array<char>, n: nat, ghost e: nat) returns (m: nat)
    requires IsStr(buf[..], n, e)
    ensures n <= m <= e && buf[m..e] == SkipSpaces(buf[n..e])
  {
    m := n;
    while buf[m] == ' '
      invariant n <= m <= e && forall i :: n <= i < m ==> buf[i] == ' '
      decreases e - m
    {
      m := m + 1;
    }
    SkipIs(buf[n..e], m - n);
    assert buf[n..e][m - n..] == buf[m..e];
  }

  /** The buffer after a cut: the parameter at ptr, ended at b, and the pointer
      to what is left of the string that ends at e. */
  ghost predicate CutAs(s: seq<char>, e: nat, r: (string, Option<string>), ptr: nat, b: nat, params: Option<nat>) {
    && ptr <= b <= e && IsStr(s, ptr, b) && s[ptr..b] == r.0
    && (params.Some? <==> r.1.Some?)
    && (params.Some? ==> b < params.value && IsStr(s, params.value, e) && s[params.value..e] == r.1.value)
  }

  method CutInPlace(buf: array<char>, ptr: nat, sep: char, ghost e: nat) returns (params: Option<nat>, ghost b: nat)
    requires IsStr(buf[..], ptr, e) && sep != NUL
    modifies buf
    ensures CutAs(buf[..], e, Cut(old(buf[ptr..e]), sep), ptr, b, params)
    ensures forall i :: 0 <= i < buf.Length && i != b ==> buf[i] == old(buf[i])
  {
    var k := ScanFor(buf, ptr, sep, e);
    b := k;
    params := None;
    if buf[k] == sep {
      ghost var was := buf[..];
      buf[k] := NUL;
      assert buf[ptr..k] == was[ptr..k] == was[ptr..e][..k - ptr];
      assert buf[k + 1..e] == was[k + 1..e] == was[ptr..e][k - ptr + 1..];
      var next := SkipBlanks(buf, k + 1, e);
      if buf[next] != NUL {
        params := Some(next);
      }
    }
  }

  /** `get_next_param`: the parameter is terminated where the separator stood;
      nothing else in the buffer changes. */
  method GetNextParam(buf: array<char>, p: nat, ghost e: nat)
    returns (ptr: nat, params: Option<nat>, ghost b: nat)
    requires IsStr(buf[..], p, e)
    modifies buf
    ensures p <= ptr && CutAs(buf[..], e, NextParam(old(buf[p..e])), ptr, b, params)
    ensures forall i :: 0 <= i < buf.Length && i != b ==> buf[i] == old(buf[i])
  {
    ptr := p;
    var sep := ' ';
    if buf[p] == '"' || buf[p] == '\'' {
      sep := buf[p];
      ptr := ptr + 1;
    }
    assert NextParam(buf[p..e]) == Cut(buf[ptr..e], sep) by {
      assert p < e ==> buf[p..e][0] == buf[p];
      if ptr == p + 1 { assert buf[p..e][1..] == buf[ptr..e]; }
    }
    params, b := CutInPlace(buf, ptr, sep, e);
  }

  /** The argument strings as they stand in the buffer. */
  ghost predicate Holding(s: seq<char>, argv: seq<nat>, ends: seq<nat>, args: seq<string>) {
    && |argv| == |ends| == |args|
    && forall i :: 0 <= i < |argv| ==> IsStr(s, argv[i], ends[i]) && s[argv[i]..ends[i]] == args[i]
  }

  lemma HoldingKept(s: seq<char>, s': seq<char>, argv: seq<nat>, ends: seq<nat>, args: seq<string>, p: nat, b: nat)
    requires Holding(s, argv, ends, args) && |s'| == |s| && p <= b
    requires forall i :: 0 <= i < |ends| ==> ends[i] < p
    requires forall i :: 0 <= i < |s| && i != b ==> s'[i] == s[i]
    ensures Holding(s', argv, ends, args)
  {
    forall i | 0 <= i < |argv|
      ensures IsStr(s', argv[i], ends[i]) && s'[argv[i]..ends[i]] == args[i]
    {
      assert s'[argv[i]..ends[i]] == s[argv[i]..ends[i]];
    }
  }

  lemma HoldingMore(s: seq<char>, argv: seq<nat>, ends: seq<nat>, args: seq<string>, e: nat,
                    r: (string, Option<string>), ptr: nat, b: nat, params: Option<nat>)
    requires Holding(s, argv, ends, args) && CutAs(s, e, r, ptr, b, params)
    requires forall i :: 0 <= i < |ends| ==> ends[i] < ptr
    ensures Holding(s, argv + [ptr], ends + [b], args + [r.0])
    ensures params.Some? ==> forall i :: 0 <= i < |ends| + 1 ==> (ends + [b])[i] < params.value
  {
  }

  /** A chain of parameters: the first ones of s are args, and then todo is left. */
  ghost predicate Chain(s: Option<string>, args: seq<string>, todo: Option<string>)
    decreases |args|
  {
    if args == [] then todo == s
    else s.Some? && NextParam(s.value).0 == args[0] && Chain(NextParam(s.value).1, args[1..], todo)
  }

  lemma {:induction false} ChainMore(s: Option<string>, args: seq<string>, todo: Option<string>)
    requires Chain(s, args, todo) && todo.Some?
    ensures Chain(s, args + [NextParam(todo.value).0], NextParam(todo.value).1)
    decreases |args|
  {
    var x := NextParam(todo.value).0;
    if args == [] {
      assert [x][1..] == [];
    } else {
      ChainMore(NextParam(s.value).1, args[1..], todo);
      assert (args + [x])[1..] == args[1..] + [x];
    }
  }

  lemma {:induction false} ChainIsParse(s: Option<string>, args: seq<string>, todo: Option<string>, room: nat)
    requires Chain(s, args, todo) && |args| <= room && (todo.None? || |args| == room)
    ensures args == Parse(s, room)
    decreases |args|
  {
    if args != [] {
      ChainIsParse(NextParam(s.value).1, args[1..], todo, room - 1);
      assert args == [args[0]] + args[1..];
    }
  }

  /** A further parameter, with the ones found before left as they are. */
  method NextArg(buf: array<char>, p: nat, ghost e: nat, ghost argv: seq<nat>, ghost ends: seq<nat>, ghost args: seq<string>)
    returns (ptr: nat, params: Option<nat>, ghost b: nat)
    requires IsStr(buf[..], p, e) && Holding(buf[..], argv, ends, args) && forall i :: 0 <= i < |ends| ==> ends[i] < p
    modifies buf
    ensures Holding(buf[..], argv, ends, args) && forall i :: 0 <= i < |ends| ==> ends[i] < ptr
    ensures CutAs(buf[..], e, NextParam(old(buf[p..e])), ptr, b, params)
  {
    ghost var s := buf[..];
    ptr, params, b := GetNextParam(buf, p, e);
    HoldingKept(s, buf[..], argv, ends, args, p, b);
  }

  /** `parse_cmd`: the pointers returned lead to exactly the arguments that the
      string denotes, at most MAX_ARGC of them. */
  method ParseCmd(buf: array<char>, start: Option<nat>, ghost e: nat) returns (argv: seq<nat>, ghost ends: seq<nat>)
    requires start.Some? ==> IsStr(buf[..], start.value, e)
    modifies buf
    ensures Holding(buf[..], argv, ends,
                    Parse(if start.Some? then Some(old(buf[start.value..e])) else None, MAX_ARGC))
  {
    argv, ends := [], [];
    if start.None? {
      return;
    }
    ghost var all := Some(buf[start.value..e]);
    ghost var todo := all;
    ghost var args: seq<string> := [];
    var param: nat;
    var rest: Option<nat>;
    ghost var b: nat;
    param, rest, b := NextArg(buf, start.value, e, argv, ends, args);
    var more := true;
    while more && |argv| < MAX_ARGC
      invariant more == todo.Some? && |argv| <= MAX_ARGC && Chain(all, args, todo)
      invariant Holding(buf[..], argv, ends, args)
      invariant more ==> CutAs(buf[..], e, NextParam(todo.value), param, b, rest)
      invariant more ==> forall i :: 0 <= i < |ends| ==> ends[i] < param
      decreases MAX_ARGC - |argv|
    {
      ghost var r := NextParam(todo.value);
      ChainMore(all, args, todo);
      HoldingMore(buf[..], argv, ends, args, e, r, param, b, rest);
      argv, ends, args, todo := argv + [param], ends + [b], args + [r.0], r.1;
      if rest.None? {
        more := false;
      } else {
        param, rest, b := NextArg(buf, rest.value, e, argv, ends, args);
      }
    }
    ChainIsParse(all, args, todo, MAX_ARGC);
  }
}
