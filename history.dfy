/** The in-memory command history of src/history.c: a log of at most 15
    lines held in fixed 1024-byte slots, newest last. */
module History {
  import opened CStrings
  import Tokens

  /** LOG_SIZE: the number of lines the log holds. */
  const LogSize: nat := 15

  /** The longest line a 1024-byte slot holds with its terminator. */
  const SlotBytes: nat := 1023

  /** The delimiters contains_atomic_log splits on. */
  const LogDelims: seq<char> := " \t|><;&"

  predicate IsSpace(c: char)
  {
    c == '\n' || c == '\t' || c == ' ' || c == '\r'
  }

  /** is_blank: the scan from `i` meets only spaces, tabs, CRs and LFs. */
  function BlankFrom(s: seq<char>, i: nat): (r: bool)
    requires i <= |s|
    ensures r <==> forall k :: i <= k < |s| ==> IsSpace(s[k])
    decreases |s| - i
  {
    if i == |s| then true
    else if IsSpace(s[i]) then BlankFrom(s, i + 1)
    else false
  }

  function IsBlank(s: seq<char>): bool
  {
    BlankFrom(s, 0)
  }

  /** contains_atomic_log: a token of the first 1023 bytes, split on
      `" \t|><;&"`, is `log`. */
  function ContainsAtomicLog(cmd: seq<char>): bool
  {
    "log" in Tokens.Tokens(Trunc(cmd, SlotBytes), LogDelims)
  }

  /** The word `log` stands at `a` in `s`, with a delimiter or an end of
      `s` on either side. */
  predicate LogAt(s: seq<char>, a: int)
  {
    Tokens.Occurs(s, a, a + 3, LogDelims) && s[a..a + 3] == "log"
  }

  /** `log` counts exactly where it stands alone between delimiters or the
      ends of the (truncated) line. */
  lemma AtomicLogIff(cmd: seq<char>)
    ensures ContainsAtomicLog(cmd) <==> exists a :: LogAt(Trunc(cmd, SlotBytes), a)
  {
    var s := Trunc(cmd, SlotBytes);
    Tokens.TokensOccur(s, LogDelims, "log");
    if ContainsAtomicLog(cmd) {
      var a, b :| Tokens.Occurs(s, a, b, LogDelims) && s[a..b] == "log";
      assert b == a + 3 && LogAt(s, a);
    }
  }

  /** A `log` word joined to a command by a pipe or separator is detected. */
  lemma LogAfterSeparator(pre: seq<char>, sep: char, post: seq<char>)
    requires sep in LogDelims && (post == [] || post[0] in LogDelims)
    requires |pre| + 4 + |post| <= SlotBytes
    ensures ContainsAtomicLog(pre + [sep] + "log" + post)
  {
    var s := pre + [sep] + "log" + post;
    var a := |pre| + 1;
    assert s[a..a + 3] == "log";
    assert s[a - 1] == sep;
    assert a + 3 < |s| ==> s[a + 3] == post[0];
    assert LogAt(s, a);
    AtomicLogIff(s);
  }

  /** `log` inside a longer word is not the token `log`. */
  lemma LogInsideWordIgnored(w: seq<char>)
    requires |w| <= SlotBytes && w != "log"
    requires forall k :: 0 <= k < |w| ==> w[k] !in LogDelims
    ensures !ContainsAtomicLog(w)
  {
    Tokens.TokensWithoutDelims(w, LogDelims);
  }

  /** The log after one line is stored: the oldest line is dropped when the
      log is full, and the line becomes the newest. */
  function Push(entries: seq<seq<char>>, line: seq<char>): (r: seq<seq<char>>)
    requires |entries| <= LogSize
    ensures 0 < |r| <= LogSize && r[|r| - 1] == line
  {
    (if |entries| == LogSize then entries[1..] else entries) + [line]
  }

  /** The last `n` elements of `s` (all of them when there are fewer). */
  function LastN<T>(s: seq<T>, n: nat): (r: seq<T>)
    ensures |r| <= n && |r| <= |s| && r == s[|s| - |r|..]
    ensures |s| <= n ==> r == s
  {
    if |s| <= n then s else s[|s| - n..]
  }

  /** A push keeps exactly the last 15 lines of the log extended by the
      line. */
  lemma PushKeepsLast(entries: seq<seq<char>>, line: seq<char>)
    requires |entries| <= LogSize
    ensures Push(entries, line) == LastN(entries + [line], LogSize)
  {
    if |entries| == LogSize {
      assert (entries + [line])[1..] == entries[1..] + [line];
    }
  }

  /** history_add_if_needed leaves the log alone for a blank line, a line
      holding the token `log`, or a repeat of the newest entry. */
  predicate Skipped(entries: seq<seq<char>>, cmd: seq<char>)
  {
    IsBlank(cmd) || ContainsAtomicLog(cmd) || (|entries| > 0 && entries[|entries| - 1] == cmd)
  }

  function AddSpec(entries: seq<seq<char>>, cmd: seq<char>): (r: seq<seq<char>>)
    requires |entries| <= LogSize
    ensures |r| <= LogSize
  {
    if Skipped(entries, cmd) then entries else Push(entries, cmd)
  }

  /** Adding the same line twice in a row stores it once. */
  lemma AddIdempotent(entries: seq<seq<char>>, cmd: seq<char>)
    requires |entries| <= LogSize
    ensures AddSpec(AddSpec(entries, cmd), cmd) == AddSpec(entries, cmd)
  {
  }

  /** A line that is not filtered out is newest afterwards. */
  lemma AddedIsNewest(entries: seq<seq<char>>, cmd: seq<char>)
    requires |entries| <= LogSize && !Skipped(entries, cmd)
    ensures var r := AddSpec(entries, cmd); |r| > 0 && r[|r| - 1] == cmd
  {
  }

  /** The line a history-file line contributes: one trailing LF or CR
      removed. */
  function StripEol(line: seq<char>): (r: seq<char>)
    ensures r == line || (|line| > 0 && r + [line[|line| - 1]] == line && line[|line| - 1] in "\n\r")
  {
    if |line| > 0 && (line[|line| - 1] == '\n' || line[|line| - 1] == '\r') then line[..|line| - 1] else line
  }

  /** history_load's effect on the log: every line is pushed, unfiltered. */
  function LoadSpec(entries: seq<seq<char>>, lines: seq<seq<char>>): (r: seq<seq<char>>)
    requires |entries| <= LogSize
    ensures |r| <= LogSize
    decreases |lines|
  {
    if lines == [] then entries else LoadSpec(Push(entries, StripEol(lines[0])), lines[1..])
  }

  function StripAll(lines: seq<seq<char>>): (r: seq<seq<char>>)
    ensures |r| == |lines| && forall k :: 0 <= k < |lines| ==> r[k] == StripEol(lines[k])
  {
    if lines == [] then [] else [StripEol(lines[0])] + StripAll(lines[1..])
  }

  /** Keeping the last `n` before appending more changes nothing about the
      last `n` after. */
  lemma LastNOfLastN<T>(s: seq<T>, t: seq<T>, n: nat)
    ensures LastN(LastN(s, n) + t, n) == LastN(s + t, n)
  {
    if |s| > n {
      var d := |s| - n;
      assert LastN(s, n) == s[d..];
      SliceAppend(s, t, d);
      LastNDrop(s + t, d, n);
    }
  }

  lemma SliceAppend<T>(s: seq<T>, t: seq<T>, d: nat)
    requires d <= |s|
    ensures s[d..] + t == (s + t)[d..]
  {
  }

  /** Dropping a prefix that the last `n` would drop anyway changes nothing. */
  lemma LastNDrop<T>(x: seq<T>, d: nat, n: nat)
    requires d + n <= |x|
    ensures LastN(x[d..], n) == LastN(x, n)
  {
    assert x[d..][|x| - d - n..] == x[|x| - n..];
  }

  lemma StripAllCons(lines: seq<seq<char>>)
    requires lines != []
    ensures StripAll(lines) == [StripEol(lines[0])] + StripAll(lines[1..])
  {
  }

  /** Loading a file leaves the last 15 lines of the old log followed by the
      file's lines, each without its line ending. */
  lemma {:induction false} LoadKeepsLast(entries: seq<seq<char>>, lines: seq<seq<char>>)
    requires |entries| <= LogSize
    ensures LoadSpec(entries, lines) == LastN(entries + StripAll(lines), LogSize)
    decreases |lines|
  {
    if lines == [] {
      assert entries + StripAll(lines) == entries;
    } else {
      var x := StripEol(lines[0]);
      var rest := StripAll(lines[1..]);
      StripAllCons(lines);
      calc {
        LoadSpec(entries, lines);
        LoadSpec(Push(entries, x), lines[1..]);
        { LoadKeepsLast(Push(entries, x), lines[1..]); }
        LastN(Push(entries, x) + rest, LogSize);
        { PushKeepsLast(entries, x); }
        LastN(LastN(entries + [x], LogSize) + rest, LogSize);
        { LastNOfLastN(entries + [x], rest, LogSize); }
        LastN(entries + [x] + rest, LogSize);
        { assert entries + [x] + rest == entries + ([x] + rest); }
        LastN(entries + StripAll(lines), LogSize);
      }
    }
  }

  /** The log component of the shell state: `log` and `log_count`. */
  class Log {
    var slots: array<seq<char>>
    var count: nat

    predicate Valid()
      reads this, slots
    {
      slots.Length == LogSize && count <= LogSize &&
      forall k :: 0 <= k < count ==> |slots[k]| <= SlotBytes
    }

    /** The stored lines, oldest first. */
    function Entries(): (r: seq<seq<char>>)
      requires Valid()
      reads this, slots
      ensures |r| <= LogSize
    {
      slots[..count]
    }

    /** The zero-initialised shell state: an empty log. */
    constructor ()
      ensures Valid() && Entries() == [] && fresh(slots)
    {
      slots := new seq<char>[LogSize];
      count := 0;
    }

    /** The drop-oldest shift and the copy into the next slot, shared by
        history_load and history_add_if_needed. */
    method Store(line: seq<char>)
      requires Valid() && |line| <= SlotBytes
      modifies this, slots
      ensures Valid() && slots == old(slots)
      ensures Entries() == Push(old(Entries()), line)
    {
      ghost var before := Entries();
      if count == LogSize {
        DropOldest();
      }
      ghost var kept := Entries();
      assert kept == if |before| == LogSize then before[1..] else before;
      var n := count;
      slots[n] := line;
      assert slots[..n] == kept;
      count := n + 1;
      assert slots[..n + 1] == kept + [line];
    }

    /** The shift loop of the full case: every entry moves down one slot
        and the oldest is gone. */
    method DropOldest()
      requires Valid() && count == LogSize
      modifies this, slots
      ensures Valid() && slots == old(slots) && count == LogSize - 1
      ensures Entries() == old(Entries())[1..]
    {
      var a := slots;
      ghost var orig := a[..];
      var i := 0;
      while i + 1 < LogSize
        invariant 0 <= i < LogSize
        invariant slots == a && count == LogSize && a.Length == LogSize
        invariant forall k :: 0 <= k < i ==> a[k] == orig[k + 1]
        invariant forall k :: i <= k < LogSize ==> a[k] == orig[k]
      {
        a[i] := a[i + 1];
        i := i + 1;
      }
      count := count - 1;
      assert forall k :: 0 <= k < count ==> a[..count][k] == orig[1..][k];
    }

    /** history_add_if_needed, without the write to the history file. */
    method AddIfNeeded(cmd: seq<char>)
      requires Valid() && |cmd| <= SlotBytes
      modifies this, slots
      ensures Valid() && slots == old(slots)
      ensures Entries() == AddSpec(old(Entries()), cmd)
    {
      if IsBlank(cmd) || ContainsAtomicLog(cmd) {
        return;
      }
      if count > 0 && slots[count - 1] == cmd {
        return;
      }
      Store(cmd);
    }

    /** history_load on the lines of the history file. */
    method Load(lines: seq<seq<char>>)
      requires Valid()
      requires forall k :: 0 <= k < |lines| ==> |StripEol(lines[k])| <= SlotBytes
      modifies this, slots
      ensures Valid() && slots == old(slots)
      ensures Entries() == LoadSpec(old(Entries()), lines)
    {
      var i := 0;
      while i < |lines|
        invariant 0 <= i <= |lines|
        invariant Valid() && slots == old(slots)
        invariant LoadSpec(old(Entries()), lines) == LoadSpec(Entries(), lines[i..])
      {
        assert lines[i..][1..] == lines[i + 1..];
        Store(StripEol(lines[i]));
        i := i + 1;
      }
    }
  }
}
