/**
 * The shell commands of asg1/commands.cpp over the inode model: the
 * command table, cd, echo, exit, make, mkdir, prompt, pwd, rm and rmr.
 * Output that a command prints is returned as a string.
 */
module Commands {
  import opened Outcomes
  import opened Words
  import opened Inodes

  const Slash: set<char> := {'/'}

  // ---------------------------------------------------------------------
  // The command table (commands.cpp:9-33)
  // ---------------------------------------------------------------------

  datatype Command = Cat | Cd | Echo | Exit | Ls | Lsr | Make | Mkdir | Prompt | Pwd | Rm | Rmr

  function Name(c: Command): string
  {
    match c
    case Cat => "cat"
    case Cd => "cd"
    case Echo => "echo"
    case Exit => "exit"
    case Ls => "ls"
    case Lsr => "lsr"
    case Make => "make"
    case Mkdir => "mkdir"
    case Prompt => "prompt"
    case Pwd => "pwd"
    case Rm => "rm"
    case Rmr => "rmr"
  }

  /** commands::at: the command of that name, or a yshell_exn naming it. */
  function Lookup(cmd: string): (r: Result<Command, string>)
    ensures r.Success? ==> Name(r.value) == cmd
    ensures r.Failure? ==> r.error == cmd + ": no such function"
  {
    if cmd == "cat" then Success(Cat)
    else if cmd == "cd" then Success(Cd)
    else if cmd == "echo" then Success(Echo)
    else if cmd == "exit" then Success(Exit)
    else if cmd == "ls" then Success(Ls)
    else if cmd == "lsr" then Success(Lsr)
    else if cmd == "make" then Success(Make)
    else if cmd == "mkdir" then Success(Mkdir)
    else if cmd == "prompt" then Success(Prompt)
    else if cmd == "pwd" then Success(Pwd)
    else if cmd == "rm" then Success(Rm)
    else if cmd == "rmr" then Success(Rmr)
    else Failure(cmd + ": no such function")
  }

  /** Every command is found under its own name, so the twelve names are distinct. */
  lemma LookupName(c: Command)
    ensures Lookup(Name(c)) == Success(c)
  {
  }

  // ---------------------------------------------------------------------
  // Paths: the last word and the text before it
  // ---------------------------------------------------------------------

  /** The words of a command line: the command name first, and none empty. */
  predicate ShellWords(words: seq<string>)
  {
    |words| >= 1 && forall i :: 0 <= i < |words| ==> words[i] != []
  }

  /** The last word of a path (`path.at (path.size() - 1)`). */
  function LastName(path: string): (r: string)
    requires Tokens(path, Slash) != []
    ensures r != [] && NoDelims(r, Slash)
  {
    var ts := Tokens(path, Slash);
    ts[|ts| - 1]
  }

  /**
   * path_str: the path erased from the rfind of its last word on. It holds
   * all the other words, and is empty only for a single relative word.
   */
  function PathStr(path: string): (r: string)
    requires Tokens(path, Slash) != []
    ensures var ts := Tokens(path, Slash); Tokens(r, Slash) == ts[..|ts| - 1]
    ensures r == [] <==> |Tokens(path, Slash)| == 1 && path[0] != '/'
    ensures r != [] ==> r[0] == path[0]
  {
    PathSplit(path, Slash);
    path[..RFind(path, LastName(path)).value]
  }

  /** Where a non-empty path starts: the root for an absolute path, else the cwd. */
  function Start(s: InodeState, path: string): nat
    reads s
    requires |path| > 0
  {
    if path[0] == '/' then s.root else s.cwd
  }

  lemma NonEmptyPath(path: string)
    requires Tokens(path, Slash) != []
    ensures |path| > 0
  {
  }

  /**
   * The parent the commands choose, as written (commands.cpp:270-277 and
   * the same lines of mkdir, rm and rmr): the cwd whenever the path has a
   * single word, even when that word follows a '/'.
   */
  function ParentAsWritten(s: InodeState, path: string): (r: PathResult)
    reads s
    requires s.Valid() && Tokens(path, Slash) != []
    ensures |path| > 0
    ensures |Tokens(path, Slash)| == 1 ==> r == Found(s.cwd)
    ensures r == ParentOf(s, path) <==> path[0] != '/' || |Tokens(path, Slash)| > 1 || s.cwd == s.root
    ensures s.Resolve(path).Found? ==> r.Found?
    ensures r.Found? ==> r.nr in s.nodes && (!s.Resolve(path).InvalidPath? ==> s.nodes[r.nr].Dir?)
  {
    NonEmptyPath(path);
    var r := if |Tokens(path, Slash)| == 1 then Found(s.cwd) else s.Resolve(PathStr(path));
    if s.Resolve(path).Found? then FoundParent(s, path); r
    else if s.Resolve(path).Missing? then MissingParent(s, path); r
    else r
  }

  /**
   * The parent as intended: the cwd only when nothing precedes the last
   * word; otherwise where path_str leads. It is where all words but the
   * last lead from where the path starts, and the path itself leads one
   * step further from it.
   */
  function ParentOf(s: InodeState, path: string): (r: PathResult)
    reads s
    requires s.Valid() && Tokens(path, Slash) != []
    ensures |path| > 0
    ensures var ts := Tokens(path, Slash); r == Walk(s.nodes, Start(s, path), ts[..|ts| - 1])
    ensures s.Resolve(path) == if r.Found? then Walk(s.nodes, r.nr, [LastName(path)]) else r
  {
    var ts := Tokens(path, Slash);
    assert ts == ts[..|ts| - 1] + [LastName(path)];
    WalkAppend(s.nodes, Start(s, path), ts[..|ts| - 1], [LastName(path)]);
    if PathStr(path) == "" then Found(s.cwd) else s.Resolve(PathStr(path))
  }

  /**
   * With the cwd away from the root, "/b" has a single word, so the
   * written choice makes b in the cwd while "/b" names b in the root.
   */
  lemma AbsoluteSingleName(s: InodeState)
    requires s.Valid() && s.cwd != s.root
    ensures Tokens("/b", Slash) == ["b"]
    ensures ParentAsWritten(s, "/b") == Found(s.cwd)
    ensures ParentOf(s, "/b") == Found(s.root) != ParentAsWritten(s, "/b")
  {
    assert "/b"[1..] == "b";
    TokensOfWord("b", Slash);
    NoTokens("/", Slash);
  }

  /** When a path leads nowhere, its parent is a directory without the last word, or nowhere. */
  lemma MissingParent(s: InodeState, path: string)
    requires s.Valid() && |path| > 0 && s.Resolve(path) == Missing
    ensures Tokens(path, Slash) != []
    ensures ParentOf(s, path).Found? || ParentOf(s, path) == Missing
    ensures ParentOf(s, path).Found? ==>
      var p := ParentOf(s, path).nr; s.nodes[p].Dir? && LastName(path) !in s.nodes[p].entries
  {
    var p := ParentOf(s, path);
    if p.Found? {
      WalkStep(s.nodes, p.nr, LastName(path));
    }
  }

  /** When a path leads somewhere, its parent (if it has a last word) is a directory holding it. */
  lemma FoundParent(s: InodeState, path: string)
    requires s.Valid() && |path| > 0 && s.Resolve(path).Found? && Tokens(path, Slash) != []
    ensures ParentOf(s, path).Found?
    ensures var p := ParentOf(s, path).nr;
      s.nodes[p].Dir? && LastName(path) in s.nodes[p].entries &&
      s.nodes[p].entries[LastName(path)] == s.Resolve(path).nr
  {
    var p := ParentOf(s, path);
    if p.Found? {
      WalkStep(s.nodes, p.nr, LastName(path));
    }
  }

  /** After entries are only added, a path that led somewhere still leads there. */
  lemma StillResolves(s: InodeState, before: map<nat, Node>, path: string)
    requires s.Valid() && |path| > 0 && Closed(before) && Start(s, path) in before && Extends(before, s.nodes)
    requires Walk(before, Start(s, path), Tokens(path, Slash)).Found?
    ensures s.Resolve(path) == Walk(before, Start(s, path), Tokens(path, Slash))
  {
    WalkExtends(before, s.nodes, Start(s, path), Tokens(path, Slash));
  }

  /**
   * After the last word is unlinked from the directory all other words
   * lead to, and entries are otherwise only removed, the path leads nowhere.
   */
  lemma GoneAfterUnlink(before: map<nat, Node>, after: map<nat, Node>, start: nat, init: seq<string>, p: nat, name: string)
    requires Closed(before) && Closed(after) && start in after && Extends(after, before)
    requires Walk(before, start, init) == Found(p)
    requires p in after && after[p].Dir? && name !in after[p].entries
    ensures !Walk(after, start, init + [name]).Found?
  {
    WalkAppend(after, start, init, [name]);
    WalkExtends(after, before, start, init);
    assert [name][1..] == [];
  }

  // ---------------------------------------------------------------------
  // pwd (commands.cpp:35-43, 347-354)
  // ---------------------------------------------------------------------

  /** pwd_recursive: the names from the root down to nr, each after a '/'; empty at the root. */
  function PwdRecursive(s: InodeState, nr: nat): (r: string)
    reads s
    requires s.Valid() && nr in s.nodes && s.nodes[nr].Dir?
    ensures nr == s.root <==> r == []
    ensures r != [] ==> r[0] == '/'
    decreases nr
  {
    if nr == s.root then ""
    else
      var p := s.GetParent(nr).value;
      PwdRecursive(s, p) + "/" + s.nodes[nr].name
  }

  /**
   * Every directory from nr up to the root is listed in its parent under
   * its own name, a non-empty name without '/'.
   */
  predicate Linked(s: InodeState, nr: nat)
    reads s
    requires s.Valid() && nr in s.nodes && s.nodes[nr].Dir?
    decreases nr
  {
    nr == s.root ||
    var p := s.GetParent(nr).value;
    var name := s.nodes[nr].name;
    name != [] && NoDelims(name, Slash) && name in s.nodes[p].entries && s.nodes[p].entries[name] == nr &&
    Linked(s, p)
  }

  lemma {:induction false} PwdWalk(s: InodeState, nr: nat)
    requires s.Valid() && nr in s.nodes && s.nodes[nr].Dir? && Linked(s, nr)
    ensures Walk(s.nodes, s.root, Tokens(PwdRecursive(s, nr), Slash)) == Found(nr)
    decreases nr
  {
    if nr != s.root {
      var p := s.GetParent(nr).value;
      PwdWalk(s, p);
      var pre := PwdRecursive(s, p);
      var name := s.nodes[nr].name;
      assert PwdRecursive(s, nr) == pre + ['/'] + name;
      TokensAround(pre, '/', name, Slash);
      TokensOfWord(name, Slash);
      WalkAppend(s.nodes, s.root, Tokens(pre, Slash), [name]);
      WalkOne(s.nodes, p, name);
    }
  }

  /** fn_pwd: the text it prints before the newline, "/" at the root. */
  function WorkingDirectory(s: InodeState): (r: string)
    reads s
    requires s.Valid()
    ensures |r| > 0 && r[0] == '/'
  {
    var wd := PwdRecursive(s, s.cwd);
    if s.cwd == s.root then wd + "/" else wd
  }

  /** The printed working directory leads back to the cwd, when the cwd is still linked. */
  lemma PwdNamesCwd(s: InodeState)
    requires s.Valid() && Linked(s, s.cwd)
    ensures s.Resolve(WorkingDirectory(s)) == Found(s.cwd)
  {
    if s.cwd == s.root {
      NoTokens("/", Slash);
    } else {
      PwdWalk(s, s.cwd);
    }
  }

  // ---------------------------------------------------------------------
  // cd (commands.cpp:65-82)
  // ---------------------------------------------------------------------

  method ChangeDirectory(s: InodeState, words: seq<string>) returns (r: Status)
    requires s.Valid() && ShellWords(words)
    modifies s
    ensures s.Valid()
    ensures s.nodes == old(s.nodes) && s.root == old(s.root) && s.prompt == old(s.prompt)
    ensures s.nextInodeNr == old(s.nextInodeNr)
    ensures |words| > 2 ==> r == Error("cd: Too many arguments")
    ensures |words| == 1 ==> r == Ok && s.cwd == s.root
    ensures |words| == 2 ==> r == match old(s.Resolve(words[1]))
      case InvalidPath => Error("invalid path")
      case Missing => Error("cd: " + words[1] + ": No such directory")
      case Found(n) => if s.nodes[n].File? then Error("cd: " + words[1] + ": Not a directory") else Ok
    ensures r.Ok? && |words| == 2 ==> old(s.Resolve(words[1])) == Found(s.cwd)
    ensures !r.Ok? ==> s.cwd == old(s.cwd)
  {
    if |words| > 2 {
      return Error("cd: Too many arguments");
    }
    if |words| == 1 {
      s.SetCwd(s.root);
      return Ok;
    }
    var ncwd := s.InodeFromPath(words[1]);
    match ncwd
    case InvalidPath =>
      r := Error("invalid path");
    case Missing =>
      r := Error("cd: " + words[1] + ": No such directory");
    case Found(n) =>
      if !s.nodes[n].Dir? {
        return Error("cd: " + words[1] + ": Not a directory");
      }
      s.SetCwd(n);
      r := Ok;
  }

  // ---------------------------------------------------------------------
  // echo (commands.cpp:84-95)
  // ---------------------------------------------------------------------

  /** fn_echo: prints the arguments with one space between each pair, then a newline. */
  method EchoWords(words: seq<string>) returns (out: string)
    requires |words| >= 1
    ensures out == Join(words[1..]) + "\n"
  {
    out := "";
    var wantSpace := false;
    var index := 1;
    while index < |words|
      invariant 1 <= index <= |words|
      invariant wantSpace <==> index > 1
      invariant out == Join(words[1..index])
    {
      assert words[1..index + 1][..index - 1] == words[1..index];
      if wantSpace {
        out := out + " ";
      } else {
        wantSpace := true;
      }
      out := out + words[index];
      index := index + 1;
    }
    assert words[1..index] == words[1..];
    out := out + "\n";
  }

  /** What echo prints splits back into its arguments. */
  lemma EchoSplitsBack(words: seq<string>)
    requires |words| >= 1
    requires forall i :: 1 <= i < |words| ==> words[i] != [] && NoDelims(words[i], {' ', '\n'})
    ensures Tokens(Join(words[1..]) + "\n", {' ', '\n'}) == words[1..]
  {
    var args := words[1..];
    assert forall k :: 0 <= k < |args| ==> args[k] == words[k + 1];
    SplitJoin(args, {' ', '\n'});
    assert Join(args) + "\n" == Join(args) + ['\n'] + [];
    TokensAround(Join(args), '\n', [], {' ', '\n'});
  }

  // ---------------------------------------------------------------------
  // exit (commands.cpp:97-120) and std::stoi
  // ---------------------------------------------------------------------

  const IntMin: int := -0x8000_0000
  const IntMax: int := 0x7fff_ffff

  /** The characters std::isspace accepts in the "C" locale. */
  predicate IsSpace(c: char)
  {
    c == ' ' || c == '\t' || c == '\n' || c == '\U{B}' || c == '\U{C}' || c == '\r'
  }

  predicate IsDigitChar(c: char)
  {
    '0' <= c <= '9'
  }

  /** Length of the leading run of characters satisfying the test. */
  function SpaceRun(w: string): (n: nat)
    ensures n <= |w| && forall i :: 0 <= i < n ==> IsSpace(w[i])
    ensures n < |w| ==> !IsSpace(w[n])
  {
    if w == [] || !IsSpace(w[0]) then 0 else 1 + SpaceRun(w[1..])
  }

  function DigitRun(w: string): (n: nat)
    ensures n <= |w| && forall i :: 0 <= i < n ==> IsDigitChar(w[i])
    ensures n < |w| ==> !IsDigitChar(w[n])
  {
    if w == [] || !IsDigitChar(w[0]) then 0 else 1 + DigitRun(w[1..])
  }

  function DigitValue(c: char): nat
    requires IsDigitChar(c)
  {
    c as int - '0' as int
  }

  /** The number a string of decimal digits spells, most significant first. */
  function DecimalValue(d: string): nat
    requires forall i :: 0 <= i < |d| ==> IsDigitChar(d[i])
  {
    if d == [] then 0 else 10 * DecimalValue(d[..|d| - 1]) + DigitValue(d[|d| - 1])
  }

  /**
   * std::stoi in base 10: leading white space, an optional sign, then at
   * least one digit (otherwise invalid_argument); a value outside int
   * throws out_of_range. Gives the value and the index just past the digits.
   */
  function Stoi(w: string): (r: Option<(int, nat)>)
    ensures r.Some? ==> IntMin <= r.value.0 <= IntMax && 0 < r.value.1 <= |w|
  {
    var i := SpaceRun(w);
    var j := if i < |w| && (w[i] == '+' || w[i] == '-') then i + 1 else i;
    var rest := w[j..];
    var n := DigitRun(rest);
    if n == 0 then None
    else
      var m := DecimalValue(rest[..n]);
      var v := if j > i && w[i] == '-' then -(m as int) else m as int;
      if v < IntMin || IntMax < v then None else Some((v, j + n))
  }

  /**
   * fn_exit: the exit status it sets. 0 without an argument; the argument's
   * value when all of it is an int; 127 otherwise.
   */
  function ExitStatus(words: seq<string>): (status: int)
    requires |words| >= 1
    ensures |words| == 1 ==> status == 0
    ensures IntMin <= status <= IntMax
    ensures |words| > 1 && (Stoi(words[1]).None? || Stoi(words[1]).value.1 != |words[1]|) ==> status == 127
  {
    if |words| == 1 then 0
    else match Stoi(words[1])
      case None => 127
      case Some((v, idx)) => if idx != |words[1]| then 127 else v
  }

  /** Decimal digits of n, most significant first, without leading zeros. */
  function Decimal(n: nat): (r: string)
    ensures r != [] && forall i :: 0 <= i < |r| ==> IsDigitChar(r[i])
  {
    var c := ('0' as int + n % 10) as char;
    if n < 10 then [c] else Decimal(n / 10) + [c]
  }

  /** How an int is written: a '-' for negatives, then its digits. */
  function ShowInt(v: int): string
  {
    (if v < 0 then "-" else "") + Decimal(if v < 0 then -v else v)
  }

  lemma {:induction false} DecimalRoundTrip(n: nat)
    ensures DecimalValue(Decimal(n)) == n
    ensures DigitRun(Decimal(n)) == |Decimal(n)|
  {
    var d := Decimal(n);
    if n >= 10 {
      DecimalRoundTrip(n / 10);
      assert d[..|d| - 1] == Decimal(n / 10);
    }
    AllDigits(d);
  }

  lemma {:induction false} AllDigits(d: string)
    requires forall i :: 0 <= i < |d| ==> IsDigitChar(d[i])
    ensures DigitRun(d) == |d|
  {
    if d != [] {
      AllDigits(d[1..]);
    }
  }

  /** `exit N` sets status N for every int N written the usual way. */
  lemma {:induction false} ExitRoundTrip(v: int)
    requires IntMin <= v <= IntMax
    ensures ExitStatus(["exit", ShowInt(v)]) == v
  {
    var m := if v < 0 then -v else v;
    DecimalRoundTrip(m);
    StoiOfDigits(ShowInt(v), if v < 0 then 1 else 0, Decimal(m));
  }

  /** Stoi reads back an optional '-' followed by all-digit text. */
  lemma {:induction false} StoiOfDigits(w: string, j: nat, d: string)
    requires d != [] && (forall i :: 0 <= i < |d| ==> IsDigitChar(d[i])) && DigitRun(d) == |d|
    requires j <= 1 && w == (if j == 1 then "-" else "") + d
    requires IntMin <= (if j == 1 then -(DecimalValue(d) as int) else DecimalValue(d)) <= IntMax
    ensures Stoi(w) == Some((if j == 1 then -(DecimalValue(d) as int) else DecimalValue(d), |w|))
  {
    assert IsDigitChar(d[0]);
    assert w[0] == if j == 1 then '-' else d[0];
    assert !IsSpace(w[0]);
    var i := SpaceRun(w);
    assert i == 0;
    var k := if i < |w| && (w[i] == '+' || w[i] == '-') then i + 1 else i;
    assert k == j;
    var rest := w[k..];
    assert rest == d && rest[..|d|] == d;
    var m := DecimalValue(rest[..|d|]);
    var v := if k > i && w[i] == '-' then -(m as int) else m as int;
    assert v == (if j == 1 then -(DecimalValue(d) as int) else DecimalValue(d));
    assert Stoi(w) == Some((v, k + |d|));
  }

  /** An argument that holds no digit at all gives status 127. */
  lemma {:induction false} ExitNotNumber(w: string)
    requires forall i :: 0 <= i < |w| ==> !IsDigitChar(w[i])
    ensures ExitStatus(["exit", w]) == 127
  {
    var i := SpaceRun(w);
    var j := if i < |w| && (w[i] == '+' || w[i] == '-') then i + 1 else i;
    assert j < |w| ==> w[j..][0] == w[j];
  }

  // ---------------------------------------------------------------------
  // make (commands.cpp:238-290)
  // ---------------------------------------------------------------------

  /**
   * fn_make: writes the words after the path into the file it names; when
   * the path leads nowhere, makes a file under its last word in the parent
   * chosen as written and writes them there. Where that parent is the one
   * the path names, the path then leads to a file holding exactly those words.
   */
  method MakeFileCommand(s: InodeState, words: seq<string>) returns (r: Status)
    requires s.Valid() && ShellWords(words)
    modifies s
    ensures s.Valid()
    ensures s.root == old(s.root) && s.cwd == old(s.cwd) && s.prompt == old(s.prompt)
    ensures Extends(old(s.nodes), s.nodes)
    ensures |words| < 2 ==> r == Error("make: Not enough arguments")
    ensures |words| >= 2 ==> r == match old(s.Resolve(words[1]))
      case InvalidPath => Error("invalid path")
      case Found(n) => if old(s.nodes)[n].Dir? then Error("make: " + words[1] + ": Cannot write to directory") else Ok
      case Missing => if old(ParentAsWritten(s, words[1])).Found? then Ok else Fault("null parent dereference")
    ensures r.Ok? && old(s.Resolve(words[1])).Found? ==>
      var n := old(s.Resolve(words[1])).nr;
      s.Resolve(words[1]) == Found(n) && s.nextInodeNr == old(s.nextInodeNr) &&
      s.nodes == old(s.nodes)[n := File(old(s.nodes)[n].name, words[2..])]
    ensures r.Ok? && old(s.Resolve(words[1])) == Missing ==>
      var p := old(ParentAsWritten(s, words[1])).nr;
      var f := old(s.nextInodeNr);
      var name := LastName(words[1]);
      s.nextInodeNr == f + 1 && f !in old(s.nodes) &&
      s.nodes == old(s.nodes)[f := File(name, words[2..])][p := Link(old(s.nodes)[p], name, f)]
    ensures r.Ok? && old(s.Resolve(words[1])) == Missing && old(ParentAsWritten(s, words[1]) == ParentOf(s, words[1])) ==>
      s.Resolve(words[1]) == Found(old(s.nextInodeNr)) && s.ReadFile(old(s.nextInodeNr)) == Success(words[2..])
    ensures !r.Ok? ==> s.nodes == old(s.nodes) && s.nextInodeNr == old(s.nextInodeNr)
  {
    ExtendsItself(s.nodes);
    if |words| < 2 {
      return Error("make: Not enough arguments");
    }
    var existing := s.InodeFromPath(words[1]);
    if existing.InvalidPath? {
      return Error("invalid path");
    }
    if existing.Found? {
      if s.nodes[existing.nr].Dir? {
        return Error("make: " + words[1] + ": Cannot write to directory");
      }
      ghost var before := s.nodes;
      r := s.WriteFile(existing.nr, words[2..]);
      StillResolves(s, before, words[1]);
      return;
    }
    MissingParent(s, words[1]);
    var path := Split(words[1], Slash);
    var fname := path[|path| - 1];
    var parent := Found(s.cwd);
    if |path| != 1 {
      parent := s.InodeFromPath(PathStr(words[1]));
    }
    if !parent.Found? {
      return Fault("null parent dereference");
    }
    var child := CreateFile(s, words[1], parent.nr, fname, words[2..]);
    r := Ok;
  }

  /**
   * inode::mkfile in the parent chosen as written for a path that leads
   * nowhere, then inode::writefile of the data when there is any: a new
   * inode linked there under the last word unless that name is taken.
   * Where that parent is the intended one, the path then leads to the new
   * file, holding exactly the data.
   */
  method CreateFile(s: InodeState, path: string, parent: nat, fname: string, data: seq<string>) returns (f: nat)
    requires s.Valid() && |path| > 0 && s.Resolve(path) == Missing
    requires Tokens(path, Slash) != [] && fname == LastName(path) && ParentAsWritten(s, path) == Found(parent)
    modifies s
    ensures s.Valid()
    ensures s.root == old(s.root) && s.cwd == old(s.cwd) && s.prompt == old(s.prompt)
    ensures Extends(old(s.nodes), s.nodes)
    ensures f == old(s.nextInodeNr) && s.nextInodeNr == f + 1 && f !in old(s.nodes)
    ensures s.nodes == old(s.nodes)[f := File(fname, data)][parent := Link(old(s.nodes)[parent], fname, f)]
    ensures old(ParentOf(s, path)) == Found(parent) ==> s.Resolve(path) == Found(f) && s.ReadFile(f) == Success(data)
  {
    ghost var before := s.nodes;
    ghost var intended := ParentOf(s, path) == Found(parent);
    f := LinkNewFile(s, path, parent, fname);
    ghost var middle := s.nodes;
    if |data| > 0 {
      var _ := s.WriteFile(f, data);
      ExtendsTrans(before, middle, s.nodes);
      Overwrite(before, f, parent, File(fname, []), Link(before[parent], fname, f), File(fname, data));
      if intended {
        StillResolves(s, middle, path);
      }
    }
  }

  /** inode::mkfile in the written parent; with the intended parent the path then leads to the new file. */
  method LinkNewFile(s: InodeState, path: string, parent: nat, fname: string) returns (f: nat)
    requires s.Valid() && |path| > 0 && s.Resolve(path) == Missing
    requires Tokens(path, Slash) != [] && fname == LastName(path) && ParentAsWritten(s, path) == Found(parent)
    modifies s
    ensures s.Valid()
    ensures s.root == old(s.root) && s.cwd == old(s.cwd) && s.prompt == old(s.prompt)
    ensures Extends(old(s.nodes), s.nodes)
    ensures f == old(s.nextInodeNr) && s.nextInodeNr == f + 1 && f !in old(s.nodes)
    ensures s.nodes == old(s.nodes)[f := File(fname, [])][parent := Link(old(s.nodes)[parent], fname, f)]
    ensures old(ParentOf(s, path)) == Found(parent) ==> s.Resolve(path) == Found(f)
  {
    ghost var before := s.nodes;
    ghost var start := Start(s, path);
    ghost var ts := Tokens(path, Slash);
    ghost var intended := ParentOf(s, path) == Found(parent);
    MissingParent(s, path);
    f := s.MakeFile(parent, fname);
    if intended {
      NewEntryResolves(before, s.nodes, start, ts[..|ts| - 1], fname, parent, f);
      assert ts == ts[..|ts| - 1] + [fname];
    }
  }

  /** A name newly linked into the directory a path's other words lead to is where the whole path leads. */
  lemma NewEntryResolves(before: map<nat, Node>, after: map<nat, Node>, start: nat, init: seq<string>,
                         name: string, p: nat, n: nat)
    requires Closed(before) && Closed(after) && start in before && Extends(before, after)
    requires Walk(before, start, init) == Found(p) && Walk(after, p, [name]) == Found(n)
    ensures Walk(after, start, init + [name]) == Found(n)
  {
    WalkExtends(before, after, start, init);
    WalkAppend(after, start, init, [name]);
  }

  /** Writing a key again after another key replaces the first write. */
  lemma Overwrite<K, V>(m: map<K, V>, a: K, b: K, x: V, y: V, z: V)
    requires a != b
    ensures m[a := x][b := y][a := z] == m[a := z][b := y]
  {
  }

  lemma ExtendsTrans(a: map<nat, Node>, b: map<nat, Node>, c: map<nat, Node>)
    requires Extends(a, b) && Extends(b, c)
    ensures Extends(a, c)
  {
  }

  // ---------------------------------------------------------------------
  // mkdir (commands.cpp:292-334)
  // ---------------------------------------------------------------------

  /**
   * fn_mkdir: makes a directory under the last word of a path that leads
   * nowhere, in the parent chosen as written, when that parent exists; its
   * ".." is that parent. Where that parent is the one the path names, the
   * path then leads to the new, empty directory.
   */
  method MakeDirectory(s: InodeState, words: seq<string>) returns (r: Status)
    requires s.Valid() && ShellWords(words)
    modifies s
    ensures s.Valid()
    ensures s.root == old(s.root) && s.cwd == old(s.cwd) && s.prompt == old(s.prompt)
    ensures Extends(old(s.nodes), s.nodes)
    ensures |words| != 2 ==> r == Error("mkdir: Invalid arguments")
    ensures |words| == 2 ==> r == match old(s.Resolve(words[1]))
      case InvalidPath => Error("invalid path")
      case Found(_) => Error("mkdir: " + words[1] + ": Directory already exists")
      case Missing =>
        if old(ParentAsWritten(s, words[1])).Found? then Ok
        else Error("mkdir: " + words[1] + ": Parent directory does not exist")
    ensures r.Ok? ==>
      |words| == 2 && Tokens(words[1], Slash) != [] && old(ParentAsWritten(s, words[1])).Found? &&
      var p := old(ParentAsWritten(s, words[1])).nr;
      var d := old(s.nextInodeNr);
      var name := LastName(words[1]);
      s.nextInodeNr == d + 1 && d !in old(s.nodes) &&
      s.nodes == old(s.nodes)[d := Dir(name, Links(d, p))][p := Link(old(s.nodes)[p], name, d)]
    ensures r.Ok? && old(ParentAsWritten(s, words[1]) == ParentOf(s, words[1])) ==>
      s.Resolve(words[1]) == Found(old(s.nextInodeNr))
    ensures !r.Ok? ==> s.nodes == old(s.nodes) && s.nextInodeNr == old(s.nextInodeNr)
  {
    ExtendsItself(s.nodes);
    if |words| != 2 {
      return Error("mkdir: Invalid arguments");
    }
    var existing := s.InodeFromPath(words[1]);
    if existing.InvalidPath? {
      return Error("invalid path");
    }
    if existing.Found? {
      return Error("mkdir: " + words[1] + ": Directory already exists");
    }
    MissingParent(s, words[1]);
    var path := Split(words[1], Slash);
    var fname := path[|path| - 1];
    var parent := Found(s.cwd);
    if |path| != 1 {
      parent := s.InodeFromPath(PathStr(words[1]));
      if !parent.Found? {
        return Error("mkdir: " + words[1] + ": Parent directory does not exist");
      }
    }
    var d := CreateDirectory(s, words[1], parent.nr, fname);
    r := Ok;
  }

  /**
   * inode::mkdir in the parent chosen as written for a path that leads
   * nowhere: a new directory linked there under the last word unless that
   * name is taken. Where that parent is the intended one, the path then
   * leads to the new directory.
   */
  method CreateDirectory(s: InodeState, path: string, parent: nat, fname: string) returns (d: nat)
    requires s.Valid() && |path| > 0 && s.Resolve(path) == Missing
    requires Tokens(path, Slash) != [] && fname == LastName(path) && ParentAsWritten(s, path) == Found(parent)
    modifies s
    ensures s.Valid()
    ensures s.root == old(s.root) && s.cwd == old(s.cwd) && s.prompt == old(s.prompt)
    ensures Extends(old(s.nodes), s.nodes)
    ensures d == old(s.nextInodeNr) && s.nextInodeNr == d + 1 && d !in old(s.nodes)
    ensures s.nodes == old(s.nodes)[d := Dir(fname, Links(d, parent))][parent := Link(old(s.nodes)[parent], fname, d)]
    ensures old(ParentOf(s, path)) == Found(parent) ==> s.Resolve(path) == Found(d)
  {
    ghost var before := s.nodes;
    ghost var start := Start(s, path);
    ghost var ts := Tokens(path, Slash);
    ghost var intended := ParentOf(s, path) == Found(parent);
    MissingParent(s, path);
    d := s.MakeDir(parent, fname);
    if intended {
      NewEntryResolves(before, s.nodes, start, ts[..|ts| - 1], fname, parent, d);
      assert ts == ts[..|ts| - 1] + [fname];
    }
  }

  // ---------------------------------------------------------------------
  // prompt (commands.cpp:336-345)
  // ---------------------------------------------------------------------

  /** fn_prompt: the new prompt is each argument followed by a space. */
  method SetPromptCommand(s: InodeState, words: seq<string>)
    requires s.Valid() && |words| >= 1
    modifies s
    ensures s.Valid()
    ensures s.prompt == if |words| == 1 then "" else Join(words[1..]) + " "
    ensures s.nodes == old(s.nodes) && s.root == old(s.root) && s.cwd == old(s.cwd)
    ensures s.nextInodeNr == old(s.nextInodeNr)
  {
    s.SetPrompt("");
    var index := 1;
    while index < |words|
      invariant 1 <= index <= |words|
      invariant s.Valid()
      invariant s.prompt == if index == 1 then "" else Join(words[1..index]) + " "
      invariant s.nodes == old(s.nodes) && s.root == old(s.root) && s.cwd == old(s.cwd)
      invariant s.nextInodeNr == old(s.nextInodeNr)
    {
      assert words[1..index + 1][..index - 1] == words[1..index];
      s.SetPrompt(s.prompt + words[index] + " ");
      index := index + 1;
    }
    assert words[1..index] == words[1..];
  }

  // ---------------------------------------------------------------------
  // rm and rmr (commands.cpp:356-431)
  // ---------------------------------------------------------------------

  /**
   * fn_rm and fn_rmr: unlink the last word of the path from the parent
   * chosen as written. rm refuses a directory holding more than "." and
   * ".."; rmr removes any. Only that one entry goes, and where that parent
   * is the one the path names, the path then leads nowhere.
   */
  method RemoveCommand(s: InodeState, words: seq<string>, recursive: bool) returns (r: Status)
    requires s.Valid() && ShellWords(words)
    modifies s
    ensures s.Valid()
    ensures s.root == old(s.root) && s.cwd == old(s.cwd) && s.prompt == old(s.prompt)
    ensures s.nextInodeNr == old(s.nextInodeNr)
    ensures Extends(s.nodes, old(s.nodes))
    ensures var cmd := if recursive then "rmr" else "rm";
      r == if |words| != 2 then Error(cmd + ": Invalid arguments")
      else match old(s.Resolve(words[1]))
        case InvalidPath => Error("invalid path")
        case Missing => Error(cmd + ": " + words[1] + ": No such file or directory")
        case Found(n) =>
          if !recursive && old(s.nodes)[n].Dir? && |old(s.nodes)[n].entries| > 2
          then Error("rm: " + words[1] + ": Can't remove non-empty directory")
          else if Tokens(words[1], Slash) == [] then Fault("vector::at out of range")
          else if LastName(words[1]) in {".", "..", "/"} then Error(cmd + ": cannot remove . or .. or /")
          else if LastName(words[1]) !in old(s.nodes)[old(ParentAsWritten(s, words[1])).nr].entries
          then Error("remove: no such inode")
          else Ok
    ensures r.Ok? ==>
      var p := old(ParentAsWritten(s, words[1])).nr;
      var name := LastName(words[1]);
      s.nodes == old(s.nodes)[p := old(s.nodes)[p].(entries := old(s.nodes)[p].entries - {name})]
    ensures r.Ok? && old(ParentAsWritten(s, words[1]) == ParentOf(s, words[1])) ==> !s.Resolve(words[1]).Found?
    ensures !r.Ok? ==> s.nodes == old(s.nodes)
  {
    ExtendsItself(s.nodes);
    var cmd := if recursive then "rmr" else "rm";
    if |words| != 2 {
      return Error(cmd + ": Invalid arguments");
    }
    var existing := s.InodeFromPath(words[1]);
    if existing.InvalidPath? {
      return Error("invalid path");
    }
    if existing.Missing? {
      return Error(cmd + ": " + words[1] + ": No such file or directory");
    }
    if !recursive && s.nodes[existing.nr].Dir? {
      var size := s.Size(existing.nr);
      if size > 2 {
        return Error("rm: " + words[1] + ": Can't remove non-empty directory");
      }
    }
    var path := Split(words[1], Slash);
    if |path| == 0 {
      return Fault("vector::at out of range");
    }
    var fname := path[|path| - 1];
    if fname == "." || fname == ".." || fname == "/" {
      return Error(cmd + ": cannot remove . or .. or /");
    }
    var parent := Found(s.cwd);
    if |path| != 1 {
      parent := s.InodeFromPath(PathStr(words[1]));
    }
    assert parent == ParentAsWritten(s, words[1]);
    r := RemovePath(s, words[1], parent.nr, fname);
  }

  /**
   * inode::remove in the parent chosen as written for a path that leads
   * somewhere: an error when that parent lacks the last word, otherwise
   * exactly that entry goes. Where that parent is the intended one, the
   * entry is there, and the path then leads nowhere.
   */
  method RemovePath(s: InodeState, path: string, parent: nat, fname: string) returns (r: Status)
    requires s.Valid() && |path| > 0 && s.Resolve(path).Found?
    requires Tokens(path, Slash) != [] && fname == LastName(path) && ParentAsWritten(s, path) == Found(parent)
    requires fname != "." && fname != ".." && fname != "/"
    modifies s
    ensures s.Valid()
    ensures s.root == old(s.root) && s.cwd == old(s.cwd) && s.prompt == old(s.prompt)
    ensures s.nextInodeNr == old(s.nextInodeNr)
    ensures Extends(s.nodes, old(s.nodes))
    ensures r == if fname in old(s.nodes)[parent].entries then Ok else Error("remove: no such inode")
    ensures r.Ok? ==>
      s.nodes == old(s.nodes)[parent := old(s.nodes)[parent].(entries := old(s.nodes)[parent].entries - {fname})]
    ensures !r.Ok? ==> s.nodes == old(s.nodes)
    ensures old(ParentOf(s, path)) == Found(parent) ==> r.Ok? && !s.Resolve(path).Found?
  {
    ghost var before := s.nodes;
    ghost var start := Start(s, path);
    ghost var ts := Tokens(path, Slash);
    ghost var init := ts[..|ts| - 1];
    ghost var intended := ParentOf(s, path) == Found(parent);
    FoundParent(s, path);
    assert ts == init + [fname];
    r := s.Remove(parent, fname);
    if intended {
      GoneAfterUnlink(before, s.nodes, start, init, parent, fname);
    }
  }
}
