/** The built-in commands of src/builtins.c.

    The process environment is a map from names to values, the working
    directory is what `getcwd` would report (`None` when it fails), and
    `chdir` and `access(..., X_OK)` are function parameters. Text a built-in
    prints on stdout is returned as a string; stderr diagnostics are
    represented only by the status they come with. */
module Builtins {
  import opened Wrappers
  import opened CStrings
  import Tokens

  /** The closed set of built-in commands. */
  datatype Builtin = Cd | Pwd | Echo | Env | SetEnv | UnsetEnv | Which | Exit

  /** The eight built-in names, in table order. */
  const BuiltinNames: seq<seq<char>> := ["cd", "pwd", "echo", "env", "setenv", "unsetenv", "which", "exit"]

  function BuiltinAt(j: nat): Builtin
    requires j < |BuiltinNames|
  {
    [Cd, Pwd, Echo, Env, SetEnv, UnsetEnv, Which, Exit][j]
  }

  /** The built-in a command word names: the first table entry equal to it. */
  function LookupBuiltin(name: seq<char>): (b: Option<Builtin>)
    ensures b.None? <==> name !in BuiltinNames
    ensures b.Some? ==> exists j :: 0 <= j < |BuiltinNames| && BuiltinNames[j] == name && b.value == BuiltinAt(j)
  {
    LookupFrom(name, 0)
  }

  function LookupFrom(name: seq<char>, j: nat): (b: Option<Builtin>)
    requires j <= |BuiltinNames|
    ensures b.None? <==> name !in BuiltinNames[j..]
    ensures b.Some? ==> exists k :: j <= k < |BuiltinNames| && BuiltinNames[k] == name && b.value == BuiltinAt(k)
    decreases |BuiltinNames| - j
  {
    if j == |BuiltinNames| then None
    else if BuiltinNames[j] == name then Some(BuiltinAt(j))
    else
      assert BuiltinNames[j..] == [BuiltinNames[j]] + BuiltinNames[j + 1..];
      LookupFrom(name, j + 1)
  }

  // ---------------------------------------------------------------- echo

  /** The words separated by single copies of `sep`. */
  function Join(words: seq<seq<char>>, sep: seq<char>): seq<char>
  {
    if words == [] then []
    else if |words| == 1 then words[0]
    else words[0] + sep + Join(words[1..], sep)
  }

  /** The first index at or after `i` that is not a "-n" argument. */
  function SkipFlags(args: seq<seq<char>>, i: nat): (j: nat)
    requires i <= |args|
    ensures i <= j <= |args|
    decreases |args| - i
  {
    if i < |args| && args[i] == "-n" then SkipFlags(args, i + 1) else i
  }

  /** The printing loop of command_echo from argument `i` on: each word,
      followed by a space when another word comes after it. */
  function EchoWords(args: seq<seq<char>>, i: nat): seq<char>
    requires i <= |args|
    decreases |args| - i
  {
    if i == |args| then []
    else args[i] + (if i + 1 < |args| then " " else "") + EchoWords(args, i + 1)
  }

  /** command_echo's output for `args` (args[0] is the command name). */
  function EchoOutput(args: seq<seq<char>>): seq<char>
    requires |args| >= 1
  {
    var i := SkipFlags(args, 1);
    EchoWords(args, i) + (if i == 1 then "\n" else "")
  }

  lemma {:induction false} EchoWordsJoin(args: seq<seq<char>>, i: nat)
    requires i <= |args|
    ensures EchoWords(args, i) == Join(args[i..], " ")
    decreases |args| - i
  {
    if i < |args| {
      EchoWordsJoin(args, i + 1);
      assert args[i..][1..] == args[i + 1..];
    }
  }

  lemma {:induction false} SkipFlagsCount(args: seq<seq<char>>, i: nat)
    requires i <= |args|
    ensures forall k :: i <= k < SkipFlags(args, i) ==> args[k] == "-n"
    ensures SkipFlags(args, i) < |args| ==> args[SkipFlags(args, i)] != "-n"
    decreases |args| - i
  {
    if i < |args| && args[i] == "-n" {
      SkipFlagsCount(args, i + 1);
    }
  }

  /** echo drops every leading "-n", prints the remaining arguments joined
      by single spaces, and ends with a newline exactly when no "-n" was
      dropped. A "-n" after the first other word is printed. */
  lemma EchoFormat(args: seq<seq<char>>, n: nat)
    requires |args| >= 1 && 1 + n <= |args|
    requires forall k :: 1 <= k < 1 + n ==> args[k] == "-n"
    requires 1 + n == |args| || args[1 + n] != "-n"
    ensures EchoOutput(args) == Join(args[1 + n..], " ") + (if n == 0 then "\n" else "")
  {
    SkipFlagsCount(args, 1);
    EchoWordsJoin(args, SkipFlags(args, 1));
  }

  // ------------------------------------------------------ PATH searching

  /** The candidate `dir/cmd`, cut to the 1023 bytes snprintf leaves in a
      1024-byte buffer. */
  function Candidate(dir: seq<char>, cmd: seq<char>): seq<char>
  {
    Trunc(dir + "/" + cmd, 1023)
  }

  /** The strtok loop of find_in_path over PATH's directories from `k` on. */
  function FirstExecutable(dirs: seq<seq<char>>, k: nat, cmd: seq<char>, isExec: seq<char> -> bool): (r: Option<seq<char>>)
    requires k <= |dirs|
    ensures r.None? <==> forall j :: k <= j < |dirs| ==> !isExec(Candidate(dirs[j], cmd))
    ensures r.Some? ==>
      exists j :: k <= j < |dirs| && r.value == Candidate(dirs[j], cmd) && isExec(r.value) &&
        forall i :: k <= i < j ==> !isExec(Candidate(dirs[i], cmd))
    decreases |dirs| - k
  {
    if k == |dirs| then None
    else if isExec(Candidate(dirs[k], cmd)) then Some(Candidate(dirs[k], cmd))
    else FirstExecutable(dirs, k + 1, cmd, isExec)
  }

  /** The PATH value find_in_path searches: my_getenv over the given entry
      list when there is one, else the C library's getenv over the process
      environment. */
  function PathValue(env: Option<seq<seq<char>>>, environ: seq<seq<char>>): Option<seq<char>>
    requires env.Some? ==> forall k :: 0 <= k < |env.value| ==> NUL !in env.value[k]
  {
    if env.Some? then MyGetenv(Some("PATH"), env) else EnvLookup(environ, "PATH")
  }

  /** find_in_path: the first `dir/cmd`, over PATH's non-empty `:`-separated
      entries in order, that passes the executable check; None when PATH is
      unset or nothing matches. */
  function FindInPath(cmd: seq<char>, env: Option<seq<seq<char>>>, environ: seq<seq<char>>,
                      isExec: seq<char> -> bool): (r: Option<seq<char>>)
    requires env.Some? ==> forall k :: 0 <= k < |env.value| ==> NUL !in env.value[k]
    ensures PathValue(env, environ).None? ==> r.None?
    ensures PathValue(env, environ).Some? ==>
      var dirs := Tokens.Tokens(PathValue(env, environ).value, ":");
      (r.None? <==> forall j :: 0 <= j < |dirs| ==> !isExec(Candidate(dirs[j], cmd))) &&
      (r.Some? ==> exists j :: 0 <= j < |dirs| && r.value == Candidate(dirs[j], cmd) && isExec(r.value) &&
                     forall i :: 0 <= i < j ==> !isExec(Candidate(dirs[i], cmd)))
  {
    var path := PathValue(env, environ);
    if path.None? then None
    else FirstExecutable(Tokens.Tokens(path.value, ":"), 0, cmd, isExec)
  }

  /** A built-in's exit status and what it printed on stdout. */
  datatype Outcome = Outcome(status: int, out: seq<char>)

  /** command_which. */
  function WhichOutcome(args: seq<seq<char>>, env: Option<seq<seq<char>>>, environ: seq<seq<char>>,
                        isExec: seq<char> -> bool): (r: Outcome)
    requires |args| >= 1
    requires env.Some? ==> forall k :: 0 <= k < |env.value| ==> NUL !in env.value[k]
    ensures |args| == 1 ==> r == Outcome(1, [])
    ensures |args| >= 2 && args[1] in BuiltinNames ==> r == Outcome(0, args[1] + ": shell built-in command\n")
    ensures |args| >= 2 && args[1] !in BuiltinNames ==>
      match FindInPath(args[1], env, environ, isExec)
      case None => r == Outcome(1, args[1] + " not found\n")
      case Some(p) => r == Outcome(0, p + "\n")
  {
    if |args| == 1 then Outcome(1, [])
    else if LookupBuiltin(args[1]).Some? then Outcome(0, args[1] + ": shell built-in command\n")
    else match FindInPath(args[1], env, environ, isExec)
      case None => Outcome(1, args[1] + " not found\n")
      case Some(p) => Outcome(0, p + "\n")
  }

  // ------------------------------------------------------ setenv/unsetenv

  /** How command_setenv reads its arguments. */
  datatype SetenvRequest = Assign(name: seq<char>, value: seq<char>) | Usage | InvalidName

  /** The index of the first `c` in `s`, if any (strchr). */
  function IndexOf(s: seq<char>, c: char): (r: Option<nat>)
    ensures r.None? <==> c !in s
    ensures r.Some? ==> r.value < |s| && s[r.value] == c && c !in s[..r.value]
  {
    if s == [] then None
    else if s[0] == c then Some(0)
    else match IndexOf(s[1..], c)
      case None => None
      case Some(k) =>
        assert s[..k + 1] == [s[0]] + s[1..][..k];
        Some(k + 1)
  }

  function ParseSetenv(args: seq<seq<char>>): (r: SetenvRequest)
    requires |args| >= 1
  {
    if |args| == 1 then Usage
    else match IndexOf(args[1], '=')
      case Some(n) =>
        if n == 0 || n >= 256 then InvalidName
        else Assign(args[1][..n], args[1][n + 1..])
      case None =>
        if |args| >= 3 then Assign(args[1], args[2]) else Usage
  }

  /** `setenv NAME=value` splits at the first `=`: the name is non-empty,
      shorter than 256 bytes and free of `=`, and name, `=` and value give
      back the argument. Without `=`, a second argument is required. */
  lemma SetenvSplit(args: seq<seq<char>>)
    requires |args| >= 2
    ensures '=' in args[1] ==>
      match ParseSetenv(args)
      case Assign(name, value) =>
        name != [] && |name| < 256 && '=' !in name && name + "=" + value == args[1]
      case InvalidName =>
        exists n :: 0 <= n < |args[1]| && args[1][n] == '=' && '=' !in args[1][..n] && (n == 0 || n >= 256)
      case Usage => false
    ensures '=' !in args[1] ==>
      ParseSetenv(args) == if |args| >= 3 then Assign(args[1], args[2]) else Usage
  {
    match IndexOf(args[1], '=')
    case Some(n) =>
      assert args[1] == args[1][..n] + "=" + args[1][n + 1..];
    case None =>
  }

  /** The part of the C library's setenv/unsetenv the built-ins depend on:
      they refuse an empty name or one holding `=`. */
  predicate ValidEnvName(name: seq<char>)
  {
    name != [] && '=' !in name
  }

  /** The environment after the C library's setenv with overwrite: the first
      entry for `name` is replaced, or a new entry is appended. */
  function SetEntry(env: seq<seq<char>>, name: seq<char>, value: seq<char>): (r: seq<seq<char>>)
    ensures |r| == |env| || |r| == |env| + 1
  {
    if env == [] then [name + "=" + value]
    else if HasKey(env[0], name) then [name + "=" + value] + env[1..]
    else [env[0]] + SetEntry(env[1..], name, value)
  }

  /** The environment after the C library's unsetenv: every entry for `name`
      is removed. */
  function RemoveEntries(env: seq<seq<char>>, name: seq<char>): (r: seq<seq<char>>)
    ensures |r| <= |env|
  {
    if env == [] then []
    else if HasKey(env[0], name) then RemoveEntries(env[1..], name)
    else [env[0]] + RemoveEntries(env[1..], name)
  }

  /** An entry is the entry of at most one `=`-free name. */
  lemma KeysExclusive(entry: seq<char>, name: seq<char>, other: seq<char>)
    requires '=' !in name && '=' !in other
    requires HasKey(entry, name) && HasKey(entry, other)
    ensures name == other
  {
  }

  lemma NewEntryKey(name: seq<char>, value: seq<char>)
    ensures HasKey(name + "=" + value, name)
    ensures (name + "=" + value)[|name| + 1..] == value
  {
    assert (name + "=" + value)[..|name|] == name;
  }

  /** After setenv, the variable reads back as the value set, and every other
      variable reads as before. */
  lemma {:induction false} SetEntryLookup(env: seq<seq<char>>, name: seq<char>, value: seq<char>, other: seq<char>)
    requires ValidEnvName(name) && '=' !in other
    ensures EnvLookup(SetEntry(env, name, value), name) == Some(value)
    ensures other != name ==> EnvLookup(SetEntry(env, name, value), other) == EnvLookup(env, other)
  {
    NewEntryKey(name, value);
    if other != name && HasKey(name + "=" + value, other) {
      KeysExclusive(name + "=" + value, name, other);
    }
    if env != [] {
      if HasKey(env[0], name) {
        if other != name && HasKey(env[0], other) {
          KeysExclusive(env[0], name, other);
        }
        assert ([name + "=" + value] + env[1..])[1..] == env[1..];
      } else {
        SetEntryLookup(env[1..], name, value, other);
        assert ([env[0]] + SetEntry(env[1..], name, value))[1..] == SetEntry(env[1..], name, value);
      }
    }
  }

  /** After unsetenv, the variable is unset, and every other variable reads
      as before. */
  lemma {:induction false} RemoveEntriesLookup(env: seq<seq<char>>, name: seq<char>, other: seq<char>)
    requires ValidEnvName(name) && '=' !in other
    ensures EnvLookup(RemoveEntries(env, name), name).None?
    ensures other != name ==> EnvLookup(RemoveEntries(env, name), other) == EnvLookup(env, other)
  {
    if env != [] {
      RemoveEntriesLookup(env[1..], name, other);
      if HasKey(env[0], name) {
        if other != name && HasKey(env[0], other) {
          KeysExclusive(env[0], name, other);
        }
      } else {
        assert ([env[0]] + RemoveEntries(env[1..], name))[1..] == RemoveEntries(env[1..], name);
      }
    }
  }

  /** The process environment (`environ`), which setenv and unsetenv
      change. */
  class Environment {
    var entries: seq<seq<char>>

    constructor (initial: seq<seq<char>>)
      ensures entries == initial
    {
      entries := initial;
    }

    /** command_setenv: sets the variable with overwrite, or reports a usage
        or name error with status 1 and leaves the environment alone. */
    method Setenv(args: seq<seq<char>>) returns (status: int)
      requires |args| >= 1
      modifies this
      ensures status == 0 || status == 1
      ensures status == 0 <==> ParseSetenv(args).Assign? && ValidEnvName(ParseSetenv(args).name)
      ensures status == 0 ==> entries == SetEntry(old(entries), ParseSetenv(args).name, ParseSetenv(args).value)
      ensures status == 1 ==> entries == old(entries)
    {
      var req := ParseSetenv(args);
      if req.Assign? && ValidEnvName(req.name) {
        entries := SetEntry(entries, req.name, req.value);
        status := 0;
      } else {
        status := 1;
      }
    }

    /** command_unsetenv: status 1 without an argument (or for a name the C
        library refuses); otherwise every entry for the name is removed. */
    method Unsetenv(args: seq<seq<char>>) returns (status: int)
      requires |args| >= 1
      modifies this
      ensures status == 0 || status == 1
      ensures status == 0 <==> |args| >= 2 && ValidEnvName(args[1])
      ensures status == 0 ==> entries == RemoveEntries(old(entries), args[1])
      ensures status == 1 ==> entries == old(entries)
    {
      if |args| == 1 || !ValidEnvName(args[1]) {
        return 1;
      }
      entries := RemoveEntries(entries, args[1]);
      status := 0;
    }
  }

  // ----------------------------------------------------------- pwd, env

  /** command_pwd: the working directory and a newline, or status 1 when
      getcwd fails. */
  function PwdOutcome(cwd: Option<seq<char>>): Outcome
  {
    if cwd.None? then Outcome(1, []) else Outcome(0, cwd.value + "\n")
  }

  /** The lines `puts` prints for each entry, in order. */
  function Lines(entries: seq<seq<char>>): seq<char>
  {
    if entries == [] then [] else entries[0] + "\n" + Lines(entries[1..])
  }

  /** command_env: the given entry list, or the process environment when
      there is none, one entry per line. */
  function EnvOutcome(env: Option<seq<seq<char>>>, environ: seq<seq<char>>): Outcome
  {
    Outcome(0, Lines(if env.Some? then env.value else environ))
  }

  /** Printing an environment that gained one entry at the end prints the
      old lines, then the new entry's line. */
  lemma {:induction false} LinesAppend(entries: seq<seq<char>>, e: seq<char>)
    ensures Lines(entries + [e]) == Lines(entries) + e + "\n"
  {
    if entries != [] {
      assert (entries + [e])[1..] == entries[1..] + [e];
      LinesAppend(entries[1..], e);
    } else {
      assert ([e])[1..] == [];
    }
  }

  /** setenv of a name the environment does not hold appends its entry. */
  lemma {:induction false} SetEntryAppends(env: seq<seq<char>>, name: seq<char>, value: seq<char>)
    requires EnvLookup(env, name).None?
    ensures SetEntry(env, name, value) == env + [name + "=" + value]
  {
    if env != [] {
      assert !HasKey(env[0], name);
      assert EnvLookup(env[1..], name).None? by {
        forall k | 0 <= k < |env[1..]| ensures !HasKey(env[1..][k], name) {
          assert env[1..][k] == env[k + 1];
        }
      }
      SetEntryAppends(env[1..], name, value);
      assert env == [env[0]] + env[1..];
    }
  }

  /** After `setenv` of a new variable, `env` prints the lines it printed
      before, then `name=value`. */
  lemma EnvAfterNewSetenv(environ: seq<seq<char>>, name: seq<char>, value: seq<char>)
    requires EnvLookup(environ, name).None?
    ensures EnvOutcome(None, SetEntry(environ, name, value)) ==
      Outcome(0, EnvOutcome(None, environ).out + name + "=" + value + "\n")
  {
    SetEntryAppends(environ, name, value);
    LinesAppend(environ, name + "=" + value);
  }

  // ------------------------------------------------------------------ cd

  /** The directory `cd` selects: HOME for no argument or `~`, the previous
      directory for `-`, otherwise the argument; None when HOME is unset or
      there is no previous directory. */
  function CdTarget(args: seq<seq<char>>, home: Option<seq<char>>, prev: Option<seq<char>>): (t: Option<seq<char>>)
    requires |args| >= 1
    ensures |args| == 1 || args[1] == "~" ==> t == home
    ensures |args| >= 2 && args[1] == "-" ==> t == prev
    ensures |args| >= 2 && args[1] != "~" && args[1] != "-" ==> t == Some(args[1])
  {
    if |args| == 1 || args[1] == "~" then home
    else if args[1] == "-" then prev
    else Some(args[1])
  }

  /** The directory state command_cd works on. */
  datatype Dirs = Dirs(cwd: Option<seq<char>>, prev: Option<seq<char>>)

  /** One `cd`: the new state, the status, and the line `cd -` prints. */
  datatype CdResult = CdResult(dirs: Dirs, status: int, printed: Option<seq<char>>)

  function CdStep(d: Dirs, args: seq<seq<char>>, environ: seq<seq<char>>,
                  chdir: (seq<char>, seq<char>) -> Option<seq<char>>): (r: CdResult)
    requires |args| >= 1
    ensures r.status == 0 || r.status == 1
    ensures r.status == 1 ==> r.dirs == d && r.printed.None?
    ensures r.status == 0 <==>
      d.cwd.Some? &&
      var home := EnvLookup(environ, "HOME");
      var t := CdTarget(args, home, d.prev);
      t.Some? && chdir(d.cwd.value, t.value).Some?
    ensures r.status == 0 ==> r.dirs.prev == d.cwd && r.dirs.cwd.Some?
    ensures r.printed.Some? <==> r.status == 0 && |args| >= 2 && args[1] == "-"
    ensures r.printed.Some? ==> r.dirs.cwd == r.printed
  {
    if d.cwd.None? then CdResult(d, 1, None)
    else
      var home := EnvLookup(environ, "HOME");
      var t := CdTarget(args, home, d.prev);
      if t.None? then CdResult(d, 1, None)
      else match chdir(d.cwd.value, t.value)
        case None => CdResult(d, 1, None)
        case Some(now) =>
          CdResult(Dirs(Some(now), d.cwd), 0, if |args| >= 2 && args[1] == "-" then Some(now) else None)
  }

  /** With a chdir that lands exactly on the directory it is given, `cd -`
      twice returns to where it started, with the previous directory
      restored as well. */
  lemma CdDashTwice(d: Dirs, environ: seq<seq<char>>, chdir: (seq<char>, seq<char>) -> Option<seq<char>>)
    requires d.cwd.Some? && d.prev.Some?
    requires chdir(d.cwd.value, d.prev.value) == Some(d.prev.value)
    requires chdir(d.prev.value, d.cwd.value) == Some(d.cwd.value)
    ensures var r1 := CdStep(d, ["cd", "-"], environ, chdir);
      r1.status == 0 && r1.dirs == Dirs(d.prev, d.cwd) &&
      var r2 := CdStep(r1.dirs, ["cd", "-"], environ, chdir);
      r2.status == 0 && r2.dirs == d
  {
  }

  /** After a successful `cd`, `pwd` prints the directory chdir landed in,
      with status 0; for `cd -` that is the line `cd` itself printed. When
      `cd` fails, `pwd` prints what it printed before. */
  lemma PwdAfterCd(d: Dirs, args: seq<seq<char>>, environ: seq<seq<char>>,
                   chdir: (seq<char>, seq<char>) -> Option<seq<char>>)
    requires |args| >= 1
    ensures var r := CdStep(d, args, environ, chdir);
      r.status == 0 ==>
        var t := CdTarget(args, EnvLookup(environ, "HOME"), d.prev);
        PwdOutcome(r.dirs.cwd) == Outcome(0, chdir(d.cwd.value, t.value).value + "\n")
    ensures var r := CdStep(d, args, environ, chdir);
      r.printed.Some? ==> PwdOutcome(r.dirs.cwd) == Outcome(0, r.printed.value + "\n")
    ensures var r := CdStep(d, args, environ, chdir);
      r.status == 1 ==> PwdOutcome(r.dirs.cwd) == PwdOutcome(d.cwd)
  {
  }

  /** The static prev_dir and the working directory, which command_cd
      updates. */
  class Directories {
    var cwd: Option<seq<char>>
    var prevDir: Option<seq<char>>

    /** At start-up prev_dir is NULL. */
    constructor (start: Option<seq<char>>)
      ensures cwd == start && prevDir.None?
    {
      cwd := start;
      prevDir := None;
    }

    /** command_cd. */
    method ChangeDir(args: seq<seq<char>>, environ: seq<seq<char>>,
                     chdir: (seq<char>, seq<char>) -> Option<seq<char>>) returns (status: int, printed: Option<seq<char>>)
      requires |args| >= 1
      modifies this
      ensures CdStep(old(Dirs(cwd, prevDir)), args, environ, chdir) == CdResult(Dirs(cwd, prevDir), status, printed)
    {
      var oldcwd := cwd;
      if oldcwd.None? {
        return 1, None;
      }
      var target: seq<char>;
      if |args| == 1 || args[1] == "~" {
        var home := EnvLookup(environ, "HOME");
        if home.None? {
          return 1, None;
        }
        target := home.value;
      } else if args[1] == "-" {
        if prevDir.None? {
          return 1, None;
        }
        target := prevDir.value;
      } else {
        target := args[1];
      }
      var now := chdir(oldcwd.value, target);
      if now.None? {
        return 1, None;
      }
      cwd := now;
      prevDir := oldcwd;
      printed := if |args| >= 2 && args[1] == "-" then cwd else None;
      status := 0;
    }
  }
}
