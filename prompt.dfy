/** The prompt of src/prompt.c: `user@host:path$ `.

    getcwd, gethostname and getenv("USER") become parameters (`None` when
    the call fails or the variable is unset). */
module Prompt {
  import opened Wrappers
  import Builtins

  /** init_prompt: the directory the shell starts in is recorded as its
      home; an empty string when getcwd fails. */
  function InitHome(cwd: Option<seq<char>>): seq<char>
  {
    if cwd.Some? then cwd.value else []
  }

  /** The test path_for_prompt applies: the working directory is non-empty,
      its bytes begin the recorded home, and home ends there or continues
      with `/`. */
  predicate AtOrAboveHome(cwd: seq<char>, home: seq<char>)
  {
    var len := |cwd|;
    len > 0 && len <= |home| && home[..len] == cwd && (len == |home| || home[len] == '/')
  }

  /** path_for_prompt. When the test holds the text after `~` is copied from
      the end of the working directory, which is always empty. */
  function PathForPrompt(cwd: Option<seq<char>>, home: seq<char>): (r: seq<char>)
    ensures cwd.None? ==> r == "?"
    ensures cwd.Some? ==> r == "~" || r == cwd.value
  {
    if cwd.None? then "?"
    else if AtOrAboveHome(cwd.value, home) then
      "~" + cwd.value[|cwd.value|..]
    else cwd.value
  }

  /** The directory is abbreviated to `~` exactly when it is home itself or
      one of home's ancestors; a directory inside home is never
      abbreviated. */
  lemma AbbreviatedIffHomeOrAncestor(cwd: seq<char>, home: seq<char>)
    requires cwd != "~"
    ensures PathForPrompt(Some(cwd), home) == "~" <==>
      cwd != [] && (cwd == home || cwd + "/" <= home)
  {
    if cwd != [] && cwd + "/" <= home {
      assert home[..|cwd|] == (cwd + "/")[..|cwd|] == cwd;
      assert home[|cwd|] == (cwd + "/")[|cwd|];
    }
    if AtOrAboveHome(cwd, home) && |cwd| < |home| {
      assert home[..|cwd| + 1] == cwd + "/";
    }
  }

  /** A directory strictly inside home is shown with its full path. */
  lemma InsideHomeShownInFull(home: seq<char>, rest: seq<char>)
    requires rest != []
    ensures PathForPrompt(Some(home + "/" + rest), home) == home + "/" + rest
  {
    var cwd := home + "/" + rest;
    assert |cwd| > |home|;
  }

  /** When home could not be recorded, no directory is abbreviated. */
  lemma NoHomeNoAbbreviation(cwd: seq<char>)
    ensures PathForPrompt(Some(cwd), InitHome(None)) == cwd
  {
  }

  /** Right after start-up, in the directory it started in, the prompt shows
      `~`. */
  lemma StartShowsTilde(cwd: seq<char>)
    requires cwd != []
    ensures PathForPrompt(Some(cwd), InitHome(Some(cwd))) == "~"
  {
    assert cwd[..|cwd|] == cwd;
  }

  /** getenv("USER"), or "user" when it is unset. */
  function UserOr(user: Option<seq<char>>): seq<char>
  {
    if user.Some? then user.value else "user"
  }

  /** gethostname's name, or "?" when it fails. */
  function HostOr(host: Option<seq<char>>): seq<char>
  {
    if host.Some? then host.value else "?"
  }

  /** The `%s@%s:%s$ ` format. */
  function PromptLine(u: seq<char>, h: seq<char>, p: seq<char>): seq<char>
  {
    u + ['@'] + (h + [':'] + p) + "$ "
  }

  /** show_prompt: user (default "user"), host (default "?") and the path
      in the form `user@host:path$ `. */
  function ShowPrompt(user: Option<seq<char>>, host: Option<seq<char>>,
                      cwd: Option<seq<char>>, home: seq<char>): seq<char>
  {
    PromptLine(UserOr(user), HostOr(host), PathForPrompt(cwd, home))
  }

  /** The three fields a prompt line is read back into. */
  datatype PromptFields = PromptFields(user: seq<char>, host: seq<char>, path: seq<char>)

  /** Reads a prompt line back: the user runs to the first `@`, the host to
      the next `:`, the path to the closing `$ `. */
  function ParsePrompt(line: seq<char>): Option<PromptFields>
  {
    if |line| < 2 || line[|line| - 2..] != "$ " then None
    else
      var body := line[..|line| - 2];
      match Builtins.IndexOf(body, '@')
      case None => None
      case Some(a) =>
        var rest := body[a + 1..];
        match Builtins.IndexOf(rest, ':')
        case None => None
        case Some(c) => Some(PromptFields(body[..a], rest[..c], rest[c + 1..]))
  }

  /** In `x + [c] + y` with no `c` in `x`, the first `c` is at `|x|`, with
      `x` before it and `y` after it. */
  lemma FirstAt(x: seq<char>, c: char, y: seq<char>)
    requires c !in x
    ensures var s := x + [c] + y;
      Builtins.IndexOf(s, c) == Some(|x|) && s[..|x|] == x && s[|x| + 1..] == y
  {
    var s := x + [c] + y;
    assert s[|x|] == c;
    assert forall j :: 0 <= j < |x| ==> s[j] == x[j];
    assert forall k :: |x| < k <= |s| ==> s[..k][|x|] == c;
    assert s[..|x|] == x;
    assert s[|x| + 1..] == y;
  }

  /** A line ending in `$ ` has that ending and its body before it. */
  lemma Closing(body: seq<char>)
    ensures var line := body + "$ ";
      |line| >= 2 && line[|line| - 2..] == "$ " && line[..|line| - 2] == body
  {
    var line := body + "$ ";
    assert line[|line| - 2..] == "$ ";
    assert line[..|line| - 2] == body;
  }

  /** Every prompt line ends in `$ ` and starts with the user and `@`; when
      the user holds no `@` and the host no `:`, it reads back into exactly
      the three fields. */
  lemma ParseBack(u: seq<char>, h: seq<char>, p: seq<char>)
    ensures var line := PromptLine(u, h, p);
      |line| >= |u| + 3 && line[|line| - 2..] == "$ " && line[..|u| + 1] == u + ['@']
    ensures '@' !in u && ':' !in h ==> ParsePrompt(PromptLine(u, h, p)) == Some(PromptFields(u, h, p))
  {
    var rest := h + [':'] + p;
    var body := u + ['@'] + rest;
    Closing(body);
    assert body[..|u| + 1] == u + ['@'];
    if '@' !in u && ':' !in h {
      FirstAt(u, '@', rest);
      FirstAt(h, ':', p);
    }
  }

  /** Every prompt ends in `$ ` and starts with the user (or "user")
      followed by `@`. When the user holds no `@` and the host no `:`, the
      line reads back into exactly the user, the host (or "?") and the path
      of path_for_prompt. */
  lemma PromptRoundTrip(user: Option<seq<char>>, host: Option<seq<char>>,
                        cwd: Option<seq<char>>, home: seq<char>)
    ensures var line := ShowPrompt(user, host, cwd, home);
      |line| >= |UserOr(user)| + 3 && line[|line| - 2..] == "$ " && line[..|UserOr(user)| + 1] == UserOr(user) + ['@']
    ensures (user.Some? ==> '@' !in user.value) && (host.Some? ==> ':' !in host.value) ==>
      ParsePrompt(ShowPrompt(user, host, cwd, home)) ==
        Some(PromptFields(UserOr(user), HostOr(host), PathForPrompt(cwd, home)))
  {
    assert '@' !in "user" && ':' !in "?";
    ParseBack(UserOr(user), HostOr(host), PathForPrompt(cwd, home));
  }
}
