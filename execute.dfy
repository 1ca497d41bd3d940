/** `run_single` and `execute_command` of src/execute.c: parsing one
    pipeline stage, the child's descriptor set-up, and the parent's pipe
    and process-group bookkeeping. Processes, files and pipes are modelled
    by an abstract descriptor table; `fork` takes its result from a list
    of kernel answers. */
module Execute {
  import opened Wrappers
  import opened CStrings
  import opened CommandText
  import Tokens
  import Signals

  // ------------------------------------------------ one stage's text

  /** The slots of `char *argv[64]` in `run_single`. */
  const ArgvSlots: int := 64

  /** A parsed stage: the buffer after the scan, `trim` and `split_argv`,
      and the offsets into it of the words and of the redirection targets. */
  datatype Parsed = Parsed(buf: seq<char>, argv: seq<nat>, ins: seq<nat>, outs: seq<OutTarget>)

  /** Every offset of `p` names a C string inside its buffer. */
  predicate WellFormed(p: Parsed)
  {
    |p.buf| > 0 && p.buf[|p.buf| - 1] == NUL &&
    (forall i :: 0 <= i < |p.argv| ==> p.argv[i] < |p.buf|) &&
    (forall i :: 0 <= i < |p.ins| ==> p.ins[i] < |p.buf|) &&
    (forall i :: 0 <= i < |p.outs| ==> p.outs[i].at < |p.buf|)
  }

  lemma TrimmedKeepsEnd(mem: seq<char>)
    requires TermFrom(mem, 0)
    ensures TermFrom(TrimmedBuffer(mem), 0)
  {
    TrimmedBufferContent(mem);
  }

  /** The parsing half of `run_single`: redirections are cut out, the rest
      is trimmed, and an empty command stops the stage (`run_single`
      returns -1 without forking); otherwise the words are split off. */
  function ParseStage(mem: seq<char>): (r: Option<Parsed>)
    requires TermFrom(mem, 0)
    ensures r.Some? ==> WellFormed(r.value)
  {
    var s0 := Sc(mem, 0, Seek, [], []);
    ScanRunRecords(s0);
    var sc := Scan(mem);
    TrimmedKeepsEnd(sc.mem);
    var b := TrimmedBuffer(sc.mem);
    if b[0] == NUL then None
    else
      var a0 := Sa(b, 0, Head, []);
      ArgRunFacts(a0, ArgvSlots);
      var sa := SplitArgvSpec(b, ArgvSlots);
      Some(Parsed(sa.mem, sa.argv, sc.ins, sc.outs))
  }

  /** A stage is dropped exactly when its trimmed text before the first
      `<` or `>` is empty; otherwise it has at least one and at most 63
      words, at most 8 input and 8 output targets. */
  lemma ParseStageShape(mem: seq<char>)
    requires TermFrom(mem, 0)
    ensures ParseStage(mem).None? <==> TrimSpec(CommandPart(Content(mem))) == []
    ensures ParseStage(mem).Some? ==>
      var p := ParseStage(mem).value;
      1 <= |p.argv| <= ArgvSlots - 1 && |p.ins| <= MaxInfiles && |p.outs| <= MaxOutfiles
  {
    StageBuffer(mem);
    var b := TrimmedBuffer(Scan(mem).mem);
    if b[0] != NUL {
      StageWords(mem);
    }
  }

  /** The buffer `split_argv` receives: still terminated, and its first
      character is NUL exactly when the trimmed command part is empty. */
  lemma StageBuffer(mem: seq<char>)
    requires TermFrom(mem, 0)
    ensures NUL in Scan(mem).mem
    ensures var b := TrimmedBuffer(Scan(mem).mem);
      var t := TrimSpec(CommandPart(Content(mem)));
      TermFrom(b, 0) && (b[0] == NUL <==> t == []) && (t != [] ==> t[0] == b[0])
    ensures var b := TrimmedBuffer(Scan(mem).mem);
      ParseStage(mem).None? <==> b[0] == NUL
  {
    var sc := Scan(mem);
    ScanRunRecords(Sc(mem, 0, Seek, [], []));
    ScanCommandPart(mem);
    var b := TrimmedBuffer(sc.mem);
    TrimmedBufferContent(sc.mem);
    TrimmedKeepsEnd(sc.mem);
    var t := TrimSpec(CommandPart(Content(mem)));
    assert Content(b) == t;
    if b[0] == NUL {
      StrLenIs(b, 0);
    } else {
      assert StrLen(b) > 0;
    }
  }

  /** A kept stage has between one and 63 words and at most 8 targets of
      each kind. */
  lemma StageWords(mem: seq<char>)
    requires TermFrom(mem, 0)
    requires NUL in Scan(mem).mem && TrimmedBuffer(Scan(mem).mem)[0] != NUL
    ensures ParseStage(mem).Some?
    ensures var p := ParseStage(mem).value;
      1 <= |p.argv| <= ArgvSlots - 1 && |p.ins| <= MaxInfiles && |p.outs| <= MaxOutfiles
  {
    StageBuffer(mem);
    ScanBounds(mem);
    var sc := Scan(mem);
    var b := TrimmedBuffer(sc.mem);
    TrimShape(CommandPart(Content(mem)));
    SplitArgvFirst(b, ArgvSlots);
    SplitArgvBound(b, ArgvSlots);
    var sa := SplitArgvSpec(b, ArgvSlots);
    assert ParseStage(mem) == Some(Parsed(sa.mem, sa.argv, sc.ins, sc.outs));
  }

  /** The words of a parsed stage, as `argv` shows them. */
  function ArgWords(p: Parsed): seq<seq<char>>
    requires WellFormed(p)
  {
    WordsAt(p.buf, p.argv)
  }

  function InNames(p: Parsed): seq<seq<char>>
    requires WellFormed(p)
  {
    WordsAt(p.buf, p.ins)
  }

  /** An output target as the child opens it: its name and whether it
      appends. */
  datatype OutFile = OutFile(name: seq<char>, append: bool)

  function OutFiles(p: Parsed): (r: seq<OutFile>)
    requires WellFormed(p)
    ensures |r| == |p.outs|
  {
    seq(|p.outs|, i requires 0 <= i < |p.outs| => OutFile(StrAt(p.buf, p.outs[i].at), p.outs[i].append))
  }

  /** The parsing half of `run_single`, in place on the stage buffer. */
  method ParseStageInPlace(a: array<char>) returns (r: Option<Parsed>)
    requires TermFrom(a[..], 0)
    modifies a
    ensures r == ParseStage(old(a[..]))
    ensures r.Some? ==> a[..] == r.value.buf
  {
    ghost var mem := a[..];
    ScanRunRecords(Sc(mem, 0, Seek, [], []));
    var ins, outs := ScanRedirections(a);
    TrimmedKeepsEnd(a[..]);
    Trim(a);
    if a[0] == NUL {
      return None;
    }
    var argv := SplitArgv(a, ArgvSlots);
    r := Some(Parsed(a[..], argv, ins, outs));
  }

  // ------------------------------------------------ the child's descriptors

  datatype OpenMode = ReadOnly | WriteAppend | WriteTrunc

  /** What a descriptor refers to. */
  datatype Desc = Terminal | PipeEnd(id: nat, write: bool) | File(name: seq<char>, mode: OpenMode)

  /** One call of `open`: the path and the access asked for. */
  datatype Attempt = Attempt(name: seq<char>, mode: OpenMode)

  /** The files `open` succeeds on, per access kind (`O_CREAT` makes
      creating a missing file part of being writable). */
  datatype FileSystem = FileSystem(readable: set<seq<char>>, writable: set<seq<char>>)

  const DevNull: seq<char> := "/dev/null"

  predicate Allowed(fs: FileSystem, a: Attempt)
  {
    if a.mode == ReadOnly then a.name in fs.readable else a.name in fs.writable
  }

  /** The `open` calls of the input loop, in order. */
  function Reads(names: seq<seq<char>>): (r: seq<Attempt>)
    ensures |r| == |names|
    ensures forall i :: 0 <= i < |r| ==> r[i] == Attempt(names[i], ReadOnly)
  {
    seq(|names|, i requires 0 <= i < |names| => Attempt(names[i], ReadOnly))
  }

  /** The `open` calls of the output loop: `O_APPEND` for `>>`, `O_TRUNC`
      for `>`. */
  function Writes(outs: seq<OutFile>): (r: seq<Attempt>)
    ensures |r| == |outs|
    ensures forall i :: 0 <= i < |r| ==>
      r[i] == Attempt(outs[i].name, if outs[i].append then WriteAppend else WriteTrunc)
  {
    seq(|outs|, i requires 0 <= i < |outs| =>
      Attempt(outs[i].name, if outs[i].append then WriteAppend else WriteTrunc))
  }

  /** The index of the first refused `open`, or the length when every one
      succeeds. */
  function FirstRefused(fs: FileSystem, reqs: seq<Attempt>): (k: nat)
    ensures k <= |reqs|
    ensures forall j :: 0 <= j < k ==> Allowed(fs, reqs[j])
    ensures k < |reqs| ==> !Allowed(fs, reqs[k])
  {
    if reqs == [] then 0
    else if !Allowed(fs, reqs[0]) then 0
    else 1 + FirstRefused(fs, reqs[1..])
  }

  function Lookup(t: map<int, Desc>, fd: int): Option<Desc>
  {
    if fd in t then Some(t[fd]) else None
  }

  /** `dup2(src, dst)`: nothing happens when `src` is not open. */
  function DupTo(t: map<int, Desc>, src: int, dst: int): map<int, Desc>
  {
    if src in t then t[dst := t[src]] else t
  }

  /** The child's descriptor state: its table, the next fresh descriptor
      number, every `open` call so far, and the exit status once it exits. */
  datatype Child = Child(table: map<int, Desc>, next: int, opens: seq<Attempt>, exit: Option<int>)

  /** The input half of the child's set-up: every input file is opened in
      order, each earlier one is closed as the next is opened, a refused
      one exits with status 1; then stdin is the last input file, else
      `inFd` when it is not 0, else /dev/null for a detached background
      stage, else what was inherited. */
  function StdinSetup(fs: FileSystem, c: Child, ins: seq<seq<char>>, inFd: int, waitFg: bool, bgDetach: bool): Child
  {
    var reqs := Reads(ins);
    var k := FirstRefused(fs, reqs);
    if k < |reqs| then Child(c.table, c.next + k, c.opens + reqs[..k + 1], Some(1))
    else if |ins| > 0 then
      Child(c.table[0 := File(ins[|ins| - 1], ReadOnly)], c.next + |ins|, c.opens + reqs, None)
    else if inFd != 0 then
      Child(DupTo(c.table, inFd, 0) - (if bgDetach then {inFd} else {}), c.next, c.opens, None)
    else if !waitFg && bgDetach then
      var dn := Attempt(DevNull, ReadOnly);
      if Allowed(fs, dn) then Child(c.table[0 := File(DevNull, ReadOnly)], c.next + 1, c.opens + [dn], None)
      else Child(c.table, c.next, c.opens + [dn], None)
    else c.(exit := None)
  }

  /** The output half: every output file is opened in order; a refused one
      exits with status 1 before the previous one is closed; then stdout is
      the last output file, else `outFd` when it is not 1 (which is then
      closed), else what was inherited. */
  function StdoutSetup(fs: FileSystem, c: Child, outs: seq<OutFile>, outFd: int): Child
  {
    var reqs := Writes(outs);
    var k := FirstRefused(fs, reqs);
    if k < |reqs| then
      var t := if k > 0 then c.table[c.next + k - 1 := File(reqs[k - 1].name, reqs[k - 1].mode)] else c.table;
      Child(t, c.next + k, c.opens + reqs[..k + 1], Some(1))
    else if |outs| > 0 then
      var last := reqs[|reqs| - 1];
      Child(c.table[1 := File(last.name, last.mode)], c.next + |outs|, c.opens + reqs, None)
    else if outFd != 1 then
      Child(DupTo(c.table, outFd, 1) - {outFd}, c.next, c.opens, None)
    else c.(exit := None)
  }

  /** The whole descriptor set-up of the child, up to the point where the
      command is started. */
  function ChildSetup(fs: FileSystem, c: Child, ins: seq<seq<char>>, outs: seq<OutFile>,
                      inFd: int, outFd: int, waitFg: bool, bgDetach: bool): Child
  {
    var c1 := StdinSetup(fs, c, ins, inFd, waitFg, bgDetach);
    if c1.exit.Some? then c1 else StdoutSetup(fs, c1, outs, outFd)
  }

  /** Where stdin comes from, by precedence. */
  function StdinSource(fs: FileSystem, t: map<int, Desc>, ins: seq<seq<char>>, inFd: int, waitFg: bool, bgDetach: bool): Option<Desc>
  {
    if |ins| > 0 then Some(File(ins[|ins| - 1], ReadOnly))
    else if inFd != 0 then (if inFd in t then Some(t[inFd]) else Lookup(t, 0))
    else if !waitFg && bgDetach && DevNull in fs.readable then Some(File(DevNull, ReadOnly))
    else Lookup(t, 0)
  }

  /** Where stdout goes, by precedence. */
  function StdoutSource(t: map<int, Desc>, outs: seq<OutFile>, outFd: int): Option<Desc>
  {
    if |outs| > 0 then
      var last := outs[|outs| - 1];
      Some(File(last.name, if last.append then WriteAppend else WriteTrunc))
    else if outFd != 1 && outFd in t then Some(t[outFd])
    else Lookup(t, 1)
  }

  /** The child goes on to run its command exactly when every input file
      is readable and every output file can be opened for writing; every
      file is then opened once, in order (inputs, then /dev/null if used,
      then outputs). */
  lemma ChildRuns(fs: FileSystem, c: Child, ins: seq<seq<char>>, outs: seq<OutFile>,
                  inFd: int, outFd: int, waitFg: bool, bgDetach: bool)
    ensures var r := ChildSetup(fs, c, ins, outs, inFd, outFd, waitFg, bgDetach);
      (r.exit.None? <==> (forall i :: 0 <= i < |ins| ==> ins[i] in fs.readable) &&
                         (forall i :: 0 <= i < |outs| ==> Allowed(fs, Writes(outs)[i]))) &&
      (r.exit.Some? ==> r.exit == Some(1)) &&
      (r.exit.None? ==>
        var dn := if |ins| == 0 && inFd == 0 && !waitFg && bgDetach then [Attempt(DevNull, ReadOnly)] else [];
        r.opens == c.opens + Reads(ins) + dn + Writes(outs))
  {
    StdinRuns(fs, c, ins, inFd, waitFg, bgDetach);
    var c1 := StdinSetup(fs, c, ins, inFd, waitFg, bgDetach);
    if c1.exit.None? {
      StdoutRuns(fs, c1, outs, outFd);
    }
  }

  /** The input half goes on exactly when every input file is readable. */
  lemma StdinRuns(fs: FileSystem, c: Child, ins: seq<seq<char>>, inFd: int, waitFg: bool, bgDetach: bool)
    ensures var r := StdinSetup(fs, c, ins, inFd, waitFg, bgDetach);
      (r.exit.None? <==> forall i :: 0 <= i < |ins| ==> ins[i] in fs.readable) &&
      (r.exit.Some? ==> r.exit == Some(1)) &&
      (r.exit.None? ==>
        var dn := if |ins| == 0 && inFd == 0 && !waitFg && bgDetach then [Attempt(DevNull, ReadOnly)] else [];
        r.opens == c.opens + Reads(ins) + dn)
  {
    var reqs := Reads(ins);
    var k := FirstRefused(fs, reqs);
    if k < |reqs| {
      assert !Allowed(fs, reqs[k]);
    } else {
      forall i | 0 <= i < |ins|
        ensures ins[i] in fs.readable
      {
        assert Allowed(fs, reqs[i]);
      }
    }
  }

  /** The output half goes on exactly when every output file may be
      written. */
  lemma StdoutRuns(fs: FileSystem, c: Child, outs: seq<OutFile>, outFd: int)
    ensures var r := StdoutSetup(fs, c, outs, outFd);
      (r.exit.None? <==> forall i :: 0 <= i < |outs| ==> Allowed(fs, Writes(outs)[i])) &&
      (r.exit.Some? ==> r.exit == Some(1)) &&
      (r.exit.None? ==> r.opens == c.opens + Writes(outs))
  {
    var w := Writes(outs);
    var k := FirstRefused(fs, w);
    if k < |w| {
      assert !Allowed(fs, w[k]);
    }
  }

  /** A refused input file ends the child before any output file is tried
      and with no descriptor of its own left open. */
  lemma InputRefusedExits(fs: FileSystem, c: Child, ins: seq<seq<char>>, outs: seq<OutFile>,
                          inFd: int, outFd: int, waitFg: bool, bgDetach: bool, i: nat)
    requires i < |ins| && ins[i] !in fs.readable
    ensures var r := ChildSetup(fs, c, ins, outs, inFd, outFd, waitFg, bgDetach);
      r.exit == Some(1) && r.table == c.table &&
      |r.opens| <= |c.opens| + i + 1 &&
      forall j :: |c.opens| <= j < |r.opens| ==> r.opens[j].mode == ReadOnly
  {
    var reqs := Reads(ins);
    assert !Allowed(fs, reqs[i]);
  }

  /** On a child that goes on to run its command, stdin and stdout are as
      the precedence rules say, when the inherited pipe ends are not the
      standard descriptors the other rule writes and differ from each
      other. */
  lemma ChildStdio(fs: FileSystem, c: Child, ins: seq<seq<char>>, outs: seq<OutFile>,
                   inFd: int, outFd: int, waitFg: bool, bgDetach: bool)
    requires inFd != 1 && outFd != 0 && inFd != outFd
    ensures var r := ChildSetup(fs, c, ins, outs, inFd, outFd, waitFg, bgDetach);
      r.exit.None? ==>
        Lookup(r.table, 0) == StdinSource(fs, c.table, ins, inFd, waitFg, bgDetach) &&
        Lookup(r.table, 1) == StdoutSource(c.table, outs, outFd)
  {
  }

  /** A child that goes on to run its command holds no descriptor it opens
      itself besides 0 and 1, and the `outFd` it was handed is closed. */
  lemma ChildNoLeak(fs: FileSystem, c: Child, ins: seq<seq<char>>, outs: seq<OutFile>,
                    inFd: int, outFd: int, waitFg: bool, bgDetach: bool)
    ensures var r := ChildSetup(fs, c, ins, outs, inFd, outFd, waitFg, bgDetach);
      r.exit.None? ==>
        (forall fd :: fd in r.table ==> fd in c.table || fd == 0 || fd == 1) &&
        (|outs| == 0 && outFd != 1 ==> outFd !in r.table) &&
        (|ins| == 0 && inFd != 0 && bgDetach && inFd != 1 && outFd != 0 ==> inFd !in r.table)
  {
  }

  /** The descriptor table of the child process between `fork` and
      `execvp`. Fresh descriptors come from a counter above every open
      one; 0, 1 and 2 are below it. */
  class FdTable {
    var table: map<int, Desc>
    var next: int
    var opens: seq<Attempt>

    ghost predicate Valid()
      reads this
    {
      3 <= next && forall fd :: fd in table ==> fd < next
    }

    function Now(exit: Option<int>): Child
      reads this
    {
      Child(table, next, opens, exit)
    }

    constructor (t: map<int, Desc>, n: int)
      requires 3 <= n && forall fd :: fd in t ==> fd < n
      ensures Valid() && table == t && next == n && opens == []
    {
      table := t;
      next := n;
      opens := [];
    }

    /** `open`: a fresh descriptor on success, -1 on refusal. */
    method Open(fs: FileSystem, req: Attempt) returns (fd: int)
      requires Valid()
      modifies this
      ensures Valid()
      ensures opens == old(opens) + [req]
      ensures Allowed(fs, req) ==>
        fd == old(next) && next == old(next) + 1 && table == old(table)[fd := File(req.name, req.mode)]
      ensures !Allowed(fs, req) ==> fd == -1 && next == old(next) && table == old(table)
    {
      opens := opens + [req];
      if Allowed(fs, req) {
        fd := next;
        table := table[fd := File(req.name, req.mode)];
        next := next + 1;
      } else {
        fd := -1;
      }
    }

    method Close(fd: int)
      requires Valid()
      modifies this
      ensures Valid()
      ensures table == old(table) - {fd} && next == old(next) && opens == old(opens)
    {
      table := table - {fd};
    }

    method Dup2(src: int, dst: int)
      requires Valid() && 0 <= dst < 3
      modifies this
      ensures Valid()
      ensures table == DupTo(old(table), src, dst) && next == old(next) && opens == old(opens)
    {
      if src in table {
        table := table[dst := table[src]];
      }
    }

    /** The input loop: `cur` is the last input file's descriptor, or -1. */
    method OpenInputs(fs: FileSystem, ins: seq<seq<char>>) returns (cur: int, exit: Option<int>)
      requires Valid()
      modifies this
      ensures Valid()
      ensures var reqs := Reads(ins); var k := FirstRefused(fs, reqs);
        if k < |reqs| then
          exit == Some(1) && table == old(table) && next == old(next) + k && opens == old(opens) + reqs[..k + 1]
        else
          exit == None && next == old(next) + |ins| && opens == old(opens) + reqs &&
          (|ins| == 0 ==> cur == -1 && table == old(table)) &&
          (|ins| > 0 ==> cur == next - 1 && table == old(table)[cur := File(ins[|ins| - 1], ReadOnly)])
    {
      ghost var reqs := Reads(ins);
      ghost var k := FirstRefused(fs, reqs);
      ghost var t0 := table;
      ghost var n0 := next;
      ghost var l0 := opens;
      cur := -1;
      var i := 0;
      while i < |ins|
        invariant Valid()
        invariant 0 <= i <= |ins| && i <= k
        invariant next == n0 + i && opens == l0 + reqs[..i]
        invariant i == 0 ==> cur == -1 && table == t0
        invariant i > 0 ==> cur == next - 1 && n0 <= cur && table == t0[cur := File(ins[i - 1], ReadOnly)]
      {
        assert reqs[..i + 1] == reqs[..i] + [reqs[i]];
        var fd := Open(fs, Attempt(ins[i], ReadOnly));
        if cur >= 0 {
          Close(cur);
          assert table == t0 || table == t0[fd := File(ins[i], ReadOnly)] by {
            if fd < 0 {
              assert table == t0[cur := File(ins[i - 1], ReadOnly)] - {cur};
            } else {
              assert table == t0[cur := File(ins[i - 1], ReadOnly)][fd := File(ins[i], ReadOnly)] - {cur};
            }
          }
        }
        if fd < 0 {
          assert i == k;
          return cur, Some(1);
        }
        cur := fd;
        i := i + 1;
      }
      assert reqs[..i] == reqs;
      exit := None;
    }
  
    /** The output loop: a refused `open` exits before the previous output
        descriptor is closed. */
    method OpenOutputs(fs: FileSystem, outs: seq<OutFile>) returns (cur: int, exit: Option<int>)
      requires Valid()
      modifies this
      ensures Valid()
      ensures var reqs := Writes(outs); var k := FirstRefused(fs, reqs);
        if k < |reqs| then
          exit == Some(1) && next == old(next) + k && opens == old(opens) + reqs[..k + 1] &&
          table == (if k > 0 then old(table)[next - 1 := File(reqs[k - 1].name, reqs[k - 1].mode)] else old(table))
        else
          exit == None && next == old(next) + |outs| && opens == old(opens) + reqs &&
          (|outs| == 0 ==> cur == -1 && table == old(table)) &&
          (|outs| > 0 ==>
             cur == next - 1 && table == old(table)[cur := File(reqs[|outs| - 1].name, reqs[|outs| - 1].mode)])
    {
      ghost var reqs := Writes(outs);
      ghost var k := FirstRefused(fs, reqs);
      ghost var t0 := table;
      ghost var n0 := next;
      ghost var l0 := opens;
      cur := -1;
      var i := 0;
      while i < |outs|
        invariant Valid()
        invariant 0 <= i <= |outs| && i <= k
        invariant next == n0 + i && opens == l0 + reqs[..i]
        invariant i == 0 ==> cur == -1 && table == t0
        invariant i > 0 ==>
          cur == next - 1 && n0 <= cur && table == t0[cur := File(reqs[i - 1].name, reqs[i - 1].mode)]
      {
        assert reqs[..i + 1] == reqs[..i] + [reqs[i]];
        var req := Attempt(outs[i].name, if outs[i].append then WriteAppend else WriteTrunc);
        var fd := Open(fs, req);
        if fd < 0 {
          assert i == k;
          return cur, Some(1);
        }
        if cur >= 0 {
          Close(cur);
          assert table == t0[cur := File(reqs[i - 1].name, reqs[i - 1].mode)][fd := File(req.name, req.mode)] - {cur};
          assert table == t0[fd := File(req.name, req.mode)];
        }
        cur := fd;
        i := i + 1;
      }
      assert reqs[..i] == reqs;
      exit := None;
    }

    /** Lines 89-113 of `run_single`'s child branch. */
    method SetUpStdin(fs: FileSystem, ins: seq<seq<char>>, inFd: int, waitFg: bool, bgDetach: bool)
      returns (exit: Option<int>)
      requires Valid()
      modifies this
      ensures Valid()
      ensures Now(exit) == StdinSetup(fs, old(Now(None)), ins, inFd, waitFg, bgDetach)
    {
      ghost var c := Now(None);
      var cur;
      cur, exit := OpenInputs(fs, ins);
      if exit.Some? {
        return;
      }
      if cur >= 0 {
        ghost var t1 := table;
        Dup2(cur, 0);
        Close(cur);
        assert table == t1[0 := File(ins[|ins| - 1], ReadOnly)] - {cur};
        assert table == c.table[0 := File(ins[|ins| - 1], ReadOnly)];
      } else if inFd != 0 {
        Dup2(inFd, 0);
        if bgDetach {
          Close(inFd);
        }
      } else if !waitFg && bgDetach {
        var dn := Open(fs, Attempt(DevNull, ReadOnly));
        if dn >= 0 {
          ghost var t1 := table;
          Dup2(dn, 0);
          Close(dn);
          assert table == t1[0 := File(DevNull, ReadOnly)] - {dn};
          assert table == c.table[0 := File(DevNull, ReadOnly)];
        }
      }
    }

    /** Lines 115-132 of `run_single`'s child branch. */
    method SetUpStdout(fs: FileSystem, outs: seq<OutFile>, outFd: int) returns (exit: Option<int>)
      requires Valid()
      modifies this
      ensures Valid()
      ensures Now(exit) == StdoutSetup(fs, old(Now(None)), outs, outFd)
    {
      ghost var c := Now(None);
      var cur;
      cur, exit := OpenOutputs(fs, outs);
      if exit.Some? {
        return;
      }
      if cur >= 0 {
        ghost var t1 := table;
        ghost var last := Writes(outs)[|outs| - 1];
        Dup2(cur, 1);
        Close(cur);
        assert table == t1[1 := File(last.name, last.mode)] - {cur};
        assert table == c.table[1 := File(last.name, last.mode)];
      } else if outFd != 1 {
        Dup2(outFd, 1);
        Close(outFd);
      }
    }

    /** The child's descriptor set-up in `run_single`: input files, stdin
        selection, output files, stdout selection; `Some(1)` when the child
        exits instead of starting the command. */
    method Redirect(fs: FileSystem, ins: seq<seq<char>>, outs: seq<OutFile>,
                    inFd: int, outFd: int, waitFg: bool, bgDetach: bool) returns (exit: Option<int>)
      requires Valid()
      modifies this
      ensures Valid()
      ensures Now(exit) == ChildSetup(fs, old(Now(None)), ins, outs, inFd, outFd, waitFg, bgDetach)
    {
      exit := SetUpStdin(fs, ins, inFd, waitFg, bgDetach);
      if exit.Some? {
        return;
      }
      exit := SetUpStdout(fs, outs, outFd);
    }
  }

  // ------------------------------------------------ the parent's side

  /** The most stages `execute_command` keeps (`char *parts[16]`). */
  const MaxStages: nat := 16

  /** What one `run_single` call did in the parent: nothing for an empty
      command, or a fork whose result is `pid`, the group it was put in,
      and whether the shell handed it the terminal and waited for it. */
  datatype Outcome = NoCommand | Forked(parsed: Parsed, pid: int, group: int, waited: bool)

  /** One `run_single` call: its stage text, its arguments and its outcome. */
  datatype Call = Call(stage: seq<char>, inFd: int, outFd: int, waitFg: bool, bgDetach: bool,
                       pgLead: int, outcome: Outcome)

  /** The name `run_single` records for the foreground job: `argv[0]`. */
  function Argv0(p: Parsed): seq<char>
    requires WellFormed(p)
  {
    if |p.argv| > 0 then StrAt(p.buf, p.argv[0]) else []
  }

  /** The value `run_single` returns. */
  function CallResult(c: Call): int
  {
    if c.outcome.NoCommand? then -1 else c.outcome.pid
  }

  /** The two ends `pipe` fills in. */
  datatype PipeFds = PipeFds(read: int, write: int)

  /** `fork` as the parent sees it: the next kernel answer when it is a
      pid, -1 when the answers are used up or the next one is not a pid. */
  function ForkAnswer(answers: seq<int>): (pid: int)
    ensures pid == -1 || pid > 0
  {
    if |answers| > 0 && answers[0] > 0 then answers[0] else -1
  }

  function Drop<T>(xs: seq<T>, n: nat): (ys: seq<T>)
    ensures |ys| == if n <= |xs| then |xs| - n else 0
  {
    if n <= |xs| then xs[n..] else []
  }

  function ForkCount(cs: seq<Call>): (n: nat)
    ensures n <= |cs|
  {
    if cs == [] then 0
    else ForkCount(cs[..|cs| - 1]) + (if cs[|cs| - 1].outcome.Forked? then 1 else 0)
  }

  /** `pg` of `execute_command` after the given calls: it starts at -1 and
      takes the first positive result. */
  function FirstSpawn(cs: seq<Call>): (pg: int)
    ensures pg == -1 || pg > 0
  {
    if cs == [] then -1
    else
      var pg := FirstSpawn(cs[..|cs| - 1]);
      var p := CallResult(cs[|cs| - 1]);
      if p > 0 && pg == -1 then p else pg
  }

  /** `FirstSpawn` is the result of the first call that forked a child, or
      -1 when none did. */
  lemma {:induction false} FirstSpawnIsFirst(cs: seq<Call>)
    ensures FirstSpawn(cs) == -1 <==> forall j :: 0 <= j < |cs| ==> CallResult(cs[j]) <= 0
    ensures FirstSpawn(cs) != -1 ==>
      exists j :: 0 <= j < |cs| && CallResult(cs[j]) == FirstSpawn(cs) &&
        forall k :: 0 <= k < j ==> CallResult(cs[k]) <= 0
  {
    if cs != [] {
      var init := cs[..|cs| - 1];
      FirstSpawnIsFirst(init);
      assert forall j :: 0 <= j < |init| ==> init[j] == cs[j];
      if FirstSpawn(init) != -1 {
        var j :| 0 <= j < |init| && CallResult(init[j]) == FirstSpawn(init) &&
          forall k :: 0 <= k < j ==> CallResult(init[k]) <= 0;
        assert CallResult(cs[j]) == FirstSpawn(cs);
      } else if CallResult(cs[|cs| - 1]) > 0 {
        assert CallResult(cs[|cs| - 1]) == FirstSpawn(cs);
      }
    }
  }

  /** The pipe made before stage `j` runs, when the shell's next fresh
      descriptor was `n0` at the start: pipes take consecutive pairs. */
  function PipeOf(j: nat, n0: int): PipeFds
  {
    PipeFds(n0 + 2 * j, n0 + 2 * j + 1)
  }

  /** The descriptors stage `j` of `cnt` is handed: the previous pipe's
      read end (or 0 for the first) and its own pipe's write end (or 1 for
      the last). */
  function StageIn(j: nat, n0: int): int
  {
    if j == 0 then 0 else PipeOf(j - 1, n0).read
  }

  function StageOut(j: nat, cnt: nat, n0: int): int
  {
    if j + 1 == cnt then 1 else PipeOf(j, n0).write
  }

  /** The pipes made once `i` of `cnt` stages have run: one per stage but
      the last. */
  function PipesMade(i: nat, cnt: nat): nat
  {
    if i < cnt then i else if cnt == 0 then 0 else cnt - 1
  }

  /** What `run_single` promises about one call's outcome, given the parse
      `parsed` of its stage: it forks exactly when the stage parses to a
      command, puts the child in the group of `pgLead` or in its own, and
      waits for it exactly when `waitFg` is set. */
  predicate OutcomeFits(c: Call, parsed: Option<Parsed>)
  {
    parsed == (if c.outcome.NoCommand? then None else Some(c.outcome.parsed)) &&
    (c.outcome.Forked? ==>
      c.outcome.group == (if c.pgLead > 0 then c.pgLead else c.outcome.pid) &&
      c.outcome.waited == c.waitFg)
  }

  /** Every stage parsed on a buffer of its own, as `run_single` does. */
  function Parses(stages: seq<seq<char>>): (ps: seq<Option<Parsed>>)
    ensures |ps| == |stages|
    ensures forall j :: 0 <= j < |stages| ==> ps[j] == ParseStage(Memory(stages[j]))
  {
    seq(|stages|, j requires 0 <= j < |stages| => ParseStage(Memory(stages[j])))
  }

  /** The calls of the pipeline loop so far, for the stages `stages` with
      the parses `parses`, the first fresh descriptor `n0` and the fork
      answers `f0` it started with. */
  predicate PipelineSoFar(cs: seq<Call>, stages: seq<seq<char>>, parses: seq<Option<Parsed>>, n0: int,
                          waitFg: bool, f0: seq<int>)
    decreases |cs|
  {
    if cs == [] then true
    else
      var before := cs[..|cs| - 1];
      PipelineSoFar(before, stages, parses, n0, waitFg, f0) &&
      StageCall(cs[|cs| - 1], |cs| - 1, before, stages, parses, n0, waitFg, f0)
  }

  /** Call `j` of the pipeline loop, after the calls `before`: stage `j`'s
      text, its descriptors, the foreground flag only on the last stage,
      the group of the first stage that forked, and the next fork answer. */
  predicate StageCall(c: Call, j: nat, before: seq<Call>, stages: seq<seq<char>>, parses: seq<Option<Parsed>>,
                      n0: int, waitFg: bool, f0: seq<int>)
  {
    var cnt := |stages|;
    j < cnt && j < |parses| &&
    c.stage == stages[j] &&
    c.inFd == StageIn(j, n0) && c.outFd == StageOut(j, cnt, n0) &&
    c.waitFg == (waitFg && j == cnt - 1) && c.bgDetach == !waitFg &&
    c.pgLead == FirstSpawn(before) &&
    OutcomeFits(c, parses[j]) &&
    (c.outcome.Forked? ==> c.outcome.pid == ForkAnswer(Drop(f0, ForkCount(before))))
  }

  /** `PipelineSoFar` says, call by call, that call `j` is the one stage
      `j` makes after the calls before it. */
  lemma PipelineSoFarAt(cs: seq<Call>, stages: seq<seq<char>>, parses: seq<Option<Parsed>>,
                        n0: int, waitFg: bool, f0: seq<int>)
    ensures PipelineSoFar(cs, stages, parses, n0, waitFg, f0) <==>
      forall j :: 0 <= j < |cs| ==> StageCall(cs[j], j, cs[..j], stages, parses, n0, waitFg, f0)
  {
    if PipelineSoFar(cs, stages, parses, n0, waitFg, f0) {
      PipelineSoFarCalls(cs, stages, parses, n0, waitFg, f0);
    }
    if forall j :: 0 <= j < |cs| ==> StageCall(cs[j], j, cs[..j], stages, parses, n0, waitFg, f0) {
      CallsPipelineSoFar(cs, stages, parses, n0, waitFg, f0);
    }
  }

  lemma {:induction false} PipelineSoFarCalls(cs: seq<Call>, stages: seq<seq<char>>, parses: seq<Option<Parsed>>,
                                              n0: int, waitFg: bool, f0: seq<int>)
    requires PipelineSoFar(cs, stages, parses, n0, waitFg, f0)
    ensures forall j :: 0 <= j < |cs| ==> StageCall(cs[j], j, cs[..j], stages, parses, n0, waitFg, f0)
    decreases |cs|
  {
    if cs != [] {
      var n := |cs| - 1;
      var init := cs[..n];
      PipelineSoFarCalls(init, stages, parses, n0, waitFg, f0);
      forall j | 0 <= j < |cs| ensures StageCall(cs[j], j, cs[..j], stages, parses, n0, waitFg, f0) {
        if j < n {
          var x, before := init[j], init[..j];
          assert StageCall(x, j, before, stages, parses, n0, waitFg, f0);
          assert cs[..j] == before;
          assert cs[j] == x;
        }
      }
    }
  }

  lemma {:induction false} CallsPipelineSoFar(cs: seq<Call>, stages: seq<seq<char>>, parses: seq<Option<Parsed>>,
                                              n0: int, waitFg: bool, f0: seq<int>)
    requires forall j :: 0 <= j < |cs| ==> StageCall(cs[j], j, cs[..j], stages, parses, n0, waitFg, f0)
    ensures PipelineSoFar(cs, stages, parses, n0, waitFg, f0)
    decreases |cs|
  {
    if cs != [] {
      var n := |cs| - 1;
      var init := cs[..n];
      forall j | 0 <= j < |init| ensures StageCall(init[j], j, init[..j], stages, parses, n0, waitFg, f0) {
        var x, before := cs[j], cs[..j];
        assert StageCall(x, j, before, stages, parses, n0, waitFg, f0);
        assert init[..j] == before;
        assert init[j] == x;
      }
      CallsPipelineSoFar(init, stages, parses, n0, waitFg, f0);
      assert StageCall(cs[n], n, init, stages, parses, n0, waitFg, f0);
    }
  }

  /** Once some call has forked, later calls do not move `FirstSpawn`. */
  lemma {:induction false} FirstSpawnStable(cs: seq<Call>, n: nat)
    requires n <= |cs| && FirstSpawn(cs[..n]) != -1
    ensures FirstSpawn(cs) == FirstSpawn(cs[..n])
    decreases |cs|
  {
    if n < |cs| {
      var init := cs[..|cs| - 1];
      assert init[..n] == cs[..n];
      FirstSpawnStable(init, n);
    } else {
      assert cs[..n] == cs;
    }
  }

  /** Every stage that forked is in the group of the first stage that
      forked. */
  lemma PipelineGroups(cs: seq<Call>, stages: seq<seq<char>>, parses: seq<Option<Parsed>>, n0: int, waitFg: bool,
                       f0: seq<int>)
    requires PipelineSoFar(cs, stages, parses, n0, waitFg, f0)
    ensures forall j :: 0 <= j < |cs| && cs[j].outcome.Forked? && cs[j].outcome.pid > 0 ==>
      cs[j].outcome.group == FirstSpawn(cs)
  {
    PipelineSoFarAt(cs, stages, parses, n0, waitFg, f0);
    forall j | 0 <= j < |cs| && cs[j].outcome.Forked? && cs[j].outcome.pid > 0
      ensures cs[j].outcome.group == FirstSpawn(cs)
    {
      var c := cs[j];
      assert StageCall(c, j, cs[..j], stages, parses, n0, waitFg, f0);
      if c.pgLead == -1 {
        assert cs[..j + 1][..j] == cs[..j];
        assert FirstSpawn(cs[..j + 1]) == c.outcome.pid;
        FirstSpawnStable(cs, j + 1);
      } else {
        FirstSpawnStable(cs, j);
      }
    }
  }

  /** Only the last stage can be waited for, and only when the pipeline
      runs in the foreground. */
  lemma OnlyLastWaited(cs: seq<Call>, stages: seq<seq<char>>, parses: seq<Option<Parsed>>, n0: int, waitFg: bool,
                       f0: seq<int>)
    requires PipelineSoFar(cs, stages, parses, n0, waitFg, f0)
    ensures forall j :: 0 <= j < |cs| && cs[j].outcome.Forked? && cs[j].outcome.waited ==>
      waitFg && j == |stages| - 1
  {
    PipelineSoFarAt(cs, stages, parses, n0, waitFg, f0);
    forall j | 0 <= j < |cs| && cs[j].outcome.Forked? && cs[j].outcome.waited
      ensures waitFg && j == |stages| - 1
    {
      assert StageCall(cs[j], j, cs[..j], stages, parses, n0, waitFg, f0);
    }
  }

  lemma PipelineExtend(cs: seq<Call>, c: Call, stages: seq<seq<char>>, parses: seq<Option<Parsed>>, n0: int,
                       waitFg: bool, f0: seq<int>)
    requires PipelineSoFar(cs, stages, parses, n0, waitFg, f0)
    requires StageCall(c, |cs|, cs, stages, parses, n0, waitFg, f0)
    ensures PipelineSoFar(cs + [c], stages, parses, n0, waitFg, f0)
  {
    assert (cs + [c])[..|cs|] == cs;
  }

  lemma DropDrop<T>(xs: seq<T>, n: nat)
    ensures Drop(Drop(xs, n), 1) == Drop(xs, n + 1)
  {
  }

  /** `strtok_r` pieces of a C string hold no NUL. */
  lemma StagesAreStrings(line: seq<char>)
    requires NUL !in line
    ensures forall t :: t in Tokens.Tokens(line, "|") ==> NUL !in t
  {
    forall t | t in Tokens.Tokens(line, "|") ensures NUL !in t {
      Tokens.TokensOccur(line, "|", t);
      var a, b :| Tokens.Occurs(line, a, b, "|") && line[a..b] == t;
      assert forall k :: 0 <= k < |t| ==> t[k] == line[a + k];
    }
  }

  method MakeBuffer(s: seq<char>) returns (a: array<char>)
    ensures fresh(a) && a[..] == Memory(s)
  {
    a := new char[|s| + 1](i => if 0 <= i < |s| then s[i] else NUL);
    assert a[..] == Memory(s) by {
      assert forall i :: 0 <= i < |s| + 1 ==> a[i] == Memory(s)[i];
    }
  }

  /** The record of one `run_single` call on the stage `text`, which
      parses to `parsed`, when `fork` would answer from `forks`. */
  function RunSingleCall(text: seq<char>, parsed: Option<Parsed>, inFd: int, outFd: int, waitFg: bool,
                         bgDetach: bool, pgLead: int, forks: seq<int>): Call
  {
    match parsed
    case None => Call(text, inFd, outFd, waitFg, bgDetach, pgLead, NoCommand)
    case Some(p) =>
      var pid := ForkAnswer(forks);
      Call(text, inFd, outFd, waitFg, bgDetach, pgLead, Forked(p, pid, if pgLead > 0 then pgLead else pid, waitFg))
  }

  /** `fg_pgid` and `fg_cmd` after one call: a foreground stage that forked
      is recorded under its group and `argv[0]`, and the record's group is
      cleared after the wait. */
  function FgPgidAfterCall(c: Call, pgid0: int): int
  {
    if c.outcome.Forked? && c.outcome.waited then -1 else pgid0
  }

  function FgCmdAfterCall(c: Call, cmd0: seq<char>): seq<char>
  {
    if c.outcome.Forked? && c.outcome.waited && WellFormed(c.outcome.parsed)
    then Trunc(Argv0(c.outcome.parsed), Signals.FgCmdBytes)
    else cmd0
  }

  /** The call `run_single` makes for stage `i` of the pipeline loop is the
      call `PipelineSoFar` expects there: forked exactly when the stage
      parses to a command, into the group of the first stage that forked
      or its own, with the next fork answer as its pid, and waited for
      exactly when it is the last stage of a foreground pipeline. */
  lemma StageCallOfRun(c: Call, cs: seq<Call>, stages: seq<seq<char>>, parses: seq<Option<Parsed>>, n0: int,
                       waitFg: bool, f0: seq<int>)
    requires |cs| < |stages| == |parses|
    requires var i := |cs|;
      c == RunSingleCall(stages[i], parses[i], StageIn(i, n0), StageOut(i, |stages|, n0),
                         waitFg && i == |stages| - 1, !waitFg, FirstSpawn(cs), Drop(f0, ForkCount(cs)))
    ensures StageCall(c, |cs|, cs, stages, parses, n0, waitFg, f0)
  {
  }

  lemma ForkCountSnoc(cs: seq<Call>, c: Call)
    ensures ForkCount(cs + [c]) == ForkCount(cs) + (if c.outcome.Forked? then 1 else 0)
  {
    assert (cs + [c])[..|cs|] == cs;
  }

  lemma FirstSpawnSnoc(cs: seq<Call>, c: Call)
    ensures FirstSpawn(cs + [c]) ==
      (if CallResult(c) > 0 && FirstSpawn(cs) == -1 then CallResult(c) else FirstSpawn(cs))
  {
    assert (cs + [c])[..|cs|] == cs;
  }

  /** The part of the shell's state a run changes: the call log, the fork
      answers left, the next fresh descriptor, the open descriptors and
      the foreground record. */
  datatype Snap = Snap(calls: seq<Call>, forks: seq<int>, next: int, fds: set<int>, pgid: int, cmd: seq<char>)

  /** The variables of the pipeline loop: the calls so far, the next
      stage's stdin, `pg` and `first`. */
  datatype Loop = Loop(cs: seq<Call>, inFd: int, pg: int, first: int)

  /** One turn of the pipeline loop takes the state `s` to `t`: unless
      the stage is the last, a fresh pipe `(s.next, s.next + 1)` whose
      write end is the stage's stdout; the stage's call; then the write
      end and the stage's stdin (unless that is the shell's own) closed,
      and the read end handed on as the next stage's stdin. */
  predicate StageStep(s: Snap, t: Snap, stage: seq<char>, parsed: Option<Parsed>, inFd: int, last: bool,
                      waitFg: bool, pg: int, p: int, nextIn: int)
  {
    var out := if last then 1 else s.next + 1;
    var c := RunSingleCall(stage, parsed, inFd, out, waitFg && last, !waitFg, pg, s.forks);
    t.calls == s.calls + [c] && p == CallResult(c) &&
    t.forks == (if c.outcome.Forked? then Drop(s.forks, 1) else s.forks) &&
    t.pgid == FgPgidAfterCall(c, s.pgid) && t.cmd == FgCmdAfterCall(c, s.cmd) &&
    t.next == s.next + (if last then 0 else 2) &&
    nextIn == (if last then inFd else s.next) &&
    t.fds == (if last then s.fds else s.fds - (if inFd != 0 then {inFd} else {}) + {s.next})
  }

  /** A turn's three steps, state by state: the pipe (unless last), the
      stage's call, and the closes (unless last), make up `StageStep`. */
  lemma StageStepOf(s: Snap, a: Snap, m: Snap, t: Snap, stage: seq<char>, inFd: int, last: bool,
                    waitFg: bool, pg: int, p: int, nextIn: int)
    requires (forall fd :: fd in s.fds ==> fd < s.next) && inFd < s.next
    requires a == if last then s else s.(next := s.next + 2, fds := s.fds + {s.next, s.next + 1})
    requires var c := RunSingleCall(stage, ParseStage(Memory(stage)), inFd, if last then 1 else s.next + 1,
                                    waitFg && last, !waitFg, pg, a.forks);
      m.calls == a.calls + [c] && p == CallResult(c) && m.next == a.next && m.fds == a.fds &&
      m.forks == (if c.outcome.Forked? then Drop(a.forks, 1) else a.forks) &&
      m.pgid == FgPgidAfterCall(c, a.pgid) && m.cmd == FgCmdAfterCall(c, a.cmd)
    requires last ==> t == m && nextIn == inFd
    requires !last ==>
      nextIn == s.next && t == m.(fds := m.fds - {s.next + 1} - (if inFd != 0 then {inFd} else {}))
    ensures StageStep(s, t, stage, ParseStage(Memory(stage)), inFd, last, waitFg, pg, p, nextIn)
  {
    if !last {
      PipeEndsKept(s.fds, s.next, inFd);
    }
  }

  /** Closing the write end of the pipe `(n, n + 1)` and the old stdin
      leaves the read end open in place of the old stdin. */
  lemma PipeEndsKept(f: set<int>, n: int, inFd: int)
    requires (forall fd :: fd in f ==> fd < n) && inFd < n
    ensures f + {n, n + 1} - {n + 1} - (if inFd != 0 then {inFd} else {}) ==
      f - (if inFd != 0 then {inFd} else {}) + {n}
  {
  }

  /** The pipeline loop after `|l.cs|` turns over `stages`, begun in the
      state `s0`, is in the state `s`. */
  predicate ProgressOf(stages: seq<seq<char>>, parses: seq<Option<Parsed>>, waitFg: bool, l: Loop, s: Snap, s0: Snap)
  {
    CallsSoFar(stages, parses, waitFg, l, s, s0) && FdsSoFar(stages, l, s, s0) && FgSoFar(stages, waitFg, l, s, s0)
  }

  /** The calls so far are the stages' calls, in order; `pg` is the first
      positive result, `first` the first stage's result, and one fork
      answer is used per forked stage. */
  predicate CallsSoFar(stages: seq<seq<char>>, parses: seq<Option<Parsed>>, waitFg: bool, l: Loop, s: Snap, s0: Snap)
  {
    LogSoFar(stages, parses, waitFg, l, s, s0) && CountsSoFar(l, s, s0)
  }

  predicate LogSoFar(stages: seq<seq<char>>, parses: seq<Option<Parsed>>, waitFg: bool, l: Loop, s: Snap, s0: Snap)
  {
    |l.cs| <= |stages| &&
    s.calls == s0.calls + l.cs &&
    PipelineSoFar(l.cs, stages, parses, s0.next, waitFg, s0.forks)
  }

  predicate CountsSoFar(l: Loop, s: Snap, s0: Snap)
  {
    l.pg == FirstSpawn(l.cs) &&
    s.forks == Drop(s0.forks, ForkCount(l.cs)) &&
    l.first == (if |l.cs| == 0 then -1 else CallResult(l.cs[0]))
  }

  /** One pipe per stage but the last; only the read end of the latest
      pipe stays open, as the next stage's stdin. */
  predicate FdsSoFar(stages: seq<seq<char>>, l: Loop, s: Snap, s0: Snap)
  {
    var i, cnt := |l.cs|, |stages|;
    s.next == s0.next + 2 * PipesMade(i, cnt) &&
    l.inFd == StageIn(PipesMade(i, cnt), s0.next) &&
    s.fds == s0.fds + (if i == 0 then {} else {l.inFd})
  }

  /** The foreground record changes only at the last stage, and only in
      the foreground. */
  predicate FgSoFar(stages: seq<seq<char>>, waitFg: bool, l: Loop, s: Snap, s0: Snap)
  {
    var i, cnt := |l.cs|, |stages|;
    (i < cnt ==> s.pgid == s0.pgid && s.cmd == s0.cmd) &&
    (!waitFg ==> s.pgid == s0.pgid) &&
    (i == cnt ==> s.cmd == FgCmdAfter(l.cs, s0.cmd))
  }

  /** The loop variables after one more turn that ended in `t` with
      result `p` and next stdin `nextIn`. */
  function TurnLoop(l: Loop, t: Snap, p: int, nextIn: int): Loop
    requires |t.calls| > 0
  {
    Loop(l.cs + [t.calls[|t.calls| - 1]], nextIn, if p > 0 && l.pg == -1 then p else l.pg,
         if |l.cs| == 0 then p else l.first)
  }

  /** The call stage `|cs|` makes, on the descriptors, group and fork
      answers the loop holds, extends `PipelineSoFar` by one. */
  lemma TurnPipeline(cs: seq<Call>, c: Call, stages: seq<seq<char>>, parses: seq<Option<Parsed>>, n0: int,
                     waitFg: bool, f0: seq<int>)
    requires PipelineSoFar(cs, stages, parses, n0, waitFg, f0)
    requires |cs| < |stages| == |parses|
    requires var i := |cs|;
      c == RunSingleCall(stages[i], parses[i], StageIn(i, n0), StageOut(i, |stages|, n0),
                         waitFg && i == |stages| - 1, !waitFg, FirstSpawn(cs), Drop(f0, ForkCount(cs)))
    ensures PipelineSoFar(cs + [c], stages, parses, n0, waitFg, f0)
  {
    StageCallOfRun(c, cs, stages, parses, n0, waitFg, f0);
    PipelineExtend(cs, c, stages, parses, n0, waitFg, f0);
  }

  /** A turn keeps the calls in step with the stages. */
  lemma TurnLog(stages: seq<seq<char>>, parses: seq<Option<Parsed>>, waitFg: bool, l: Loop, s: Snap, t: Snap,
                s0: Snap, p: int, nextIn: int)
    requires LogSoFar(stages, parses, waitFg, l, s, s0) && CountsSoFar(l, s, s0) && FdsSoFar(stages, l, s, s0)
    requires |l.cs| < |stages| == |parses|
    requires StageStep(s, t, stages[|l.cs|], parses[|l.cs|], l.inFd, |l.cs| == |stages| - 1, waitFg, l.pg, p, nextIn)
    ensures |t.calls| > 0 && LogSoFar(stages, parses, waitFg, TurnLoop(l, t, p, nextIn), t, s0)
  {
    var c := TurnCall(stages, parses, waitFg, l, s, t, s0, p, nextIn);
    TurnPipeline(l.cs, c, stages, parses, s0.next, waitFg, s0.forks);
    CallsExtend(s0.calls, l.cs, c, s.calls, t.calls);
    assert TurnLoop(l, t, p, nextIn).cs == l.cs + [c];
  }

  /** The call a turn makes, in the terms `PipelineSoFar` uses. */
  lemma TurnCall(stages: seq<seq<char>>, parses: seq<Option<Parsed>>, waitFg: bool, l: Loop, s: Snap, t: Snap,
                 s0: Snap, p: int, nextIn: int) returns (c: Call)
    requires CountsSoFar(l, s, s0) && FdsSoFar(stages, l, s, s0)
    requires |l.cs| < |stages| == |parses|
    requires StageStep(s, t, stages[|l.cs|], parses[|l.cs|], l.inFd, |l.cs| == |stages| - 1, waitFg, l.pg, p, nextIn)
    ensures t.calls == s.calls + [c]
    ensures var i := |l.cs|;
      c == RunSingleCall(stages[i], parses[i], StageIn(i, s0.next), StageOut(i, |stages|, s0.next),
                         waitFg && i == |stages| - 1, !waitFg, FirstSpawn(l.cs), Drop(s0.forks, ForkCount(l.cs)))
  {
    var i, cnt, n0 := |l.cs|, |stages|, s0.next;
    c := RunSingleCall(stages[i], parses[i], l.inFd, if i == cnt - 1 then 1 else s.next + 1,
                       waitFg && i == cnt - 1, !waitFg, l.pg, s.forks);
    assert l.inFd == StageIn(i, n0) && (if i == cnt - 1 then 1 else s.next + 1) == StageOut(i, cnt, n0);
  }

  lemma CallsExtend(c0: seq<Call>, cs: seq<Call>, c: Call, before: seq<Call>, after: seq<Call>)
    requires before == c0 + cs && after == before + [c]
    ensures |after| > 0 && after[|after| - 1] == c && after == c0 + (cs + [c])
  {
  }

  /** A turn keeps `pg`, `first` and the fork answers in step with the
      calls. */
  lemma TurnCounts(stage: seq<char>, parsed: Option<Parsed>, waitFg: bool, last: bool, l: Loop, s: Snap, t: Snap,
                   s0: Snap, p: int, nextIn: int)
    requires CountsSoFar(l, s, s0)
    requires StageStep(s, t, stage, parsed, l.inFd, last, waitFg, l.pg, p, nextIn)
    ensures |t.calls| > 0 && CountsSoFar(TurnLoop(l, t, p, nextIn), t, s0)
  {
    var c := RunSingleCall(stage, parsed, l.inFd, if last then 1 else s.next + 1, waitFg && last, !waitFg, l.pg, s.forks);
    assert t.calls == s.calls + [c];
    assert t.calls[|t.calls| - 1] == c;
    ForkCountSnoc(l.cs, c);
    FirstSpawnSnoc(l.cs, c);
    DropDrop(s0.forks, ForkCount(l.cs));
  }

  /** A turn keeps the descriptor bookkeeping. */
  lemma TurnFds(stages: seq<seq<char>>, parsed: Option<Parsed>, waitFg: bool, l: Loop, s: Snap, t: Snap, s0: Snap,
                p: int, nextIn: int)
    requires FdsSoFar(stages, l, s, s0)
    requires |l.cs| < |stages| && |stages| != 1
    requires 3 <= s0.next && forall fd :: fd in s0.fds ==> fd < s0.next
    requires StageStep(s, t, stages[|l.cs|], parsed, l.inFd, |l.cs| == |stages| - 1, waitFg, l.pg, p, nextIn)
    ensures |t.calls| > 0 && FdsSoFar(stages, TurnLoop(l, t, p, nextIn), t, s0)
  {
    var i := |l.cs|;
    assert i > 0 ==> l.inFd != 0 && l.inFd !in s0.fds;
  }

  /** A turn keeps the foreground record as `FgSoFar` says. */
  lemma TurnFg(stages: seq<seq<char>>, parsed: Option<Parsed>, waitFg: bool, l: Loop, s: Snap, t: Snap, s0: Snap,
               p: int, nextIn: int)
    requires FgSoFar(stages, waitFg, l, s, s0)
    requires |l.cs| < |stages|
    requires StageStep(s, t, stages[|l.cs|], parsed, l.inFd, |l.cs| == |stages| - 1, waitFg, l.pg, p, nextIn)
    ensures |t.calls| > 0 && FgSoFar(stages, waitFg, TurnLoop(l, t, p, nextIn), t, s0)
  {
    var i, cnt := |l.cs|, |stages|;
    var c := RunSingleCall(stages[i], parsed, l.inFd, if i == cnt - 1 then 1 else s.next + 1,
                           waitFg && i == cnt - 1, !waitFg, l.pg, s.forks);
    assert t.calls == s.calls + [c];
  }

  /** One full turn keeps the loop's whole bookkeeping. */
  lemma Turn(stages: seq<seq<char>>, parses: seq<Option<Parsed>>, waitFg: bool, l: Loop, s: Snap, t: Snap,
             s0: Snap, p: int, nextIn: int)
    requires ProgressOf(stages, parses, waitFg, l, s, s0)
    requires |l.cs| < |stages| == |parses| && |stages| != 1
    requires 3 <= s0.next && forall fd :: fd in s0.fds ==> fd < s0.next
    requires StageStep(s, t, stages[|l.cs|], parses[|l.cs|], l.inFd, |l.cs| == |stages| - 1, waitFg, l.pg, p, nextIn)
    ensures |t.calls| > 0 && ProgressOf(stages, parses, waitFg, TurnLoop(l, t, p, nextIn), t, s0)
  {
    TurnLog(stages, parses, waitFg, l, s, t, s0, p, nextIn);
    TurnCounts(stages[|l.cs|], parses[|l.cs|], waitFg, |l.cs| == |stages| - 1, l, s, t, s0, p, nextIn);
    TurnFds(stages, parses[|l.cs|], waitFg, l, s, t, s0, p, nextIn);
    TurnFg(stages, parses[|l.cs|], waitFg, l, s, t, s0, p, nextIn);
  }

  /** The stdin a turn is handed is below the next fresh descriptor. */
  lemma InFdBelowNext(stages: seq<seq<char>>, l: Loop, s: Snap, s0: Snap)
    requires FdsSoFar(stages, l, s, s0) && |l.cs| < |stages| && 3 <= s0.next
    ensures l.inFd < s.next
  {
  }

  /** After the last turn: the calls are the stages' calls, one pipe per
      stage but the last, only the last read end left open, and the
      foreground record as the last call left it. */
  lemma PipelineDone(stages: seq<seq<char>>, parses: seq<Option<Parsed>>, waitFg: bool, l: Loop, s: Snap, s0: Snap)
    requires ProgressOf(stages, parses, waitFg, l, s, s0) && |l.cs| == |stages| != 1
    ensures s.calls == s0.calls + l.cs && PipelineSoFar(l.cs, stages, parses, s0.next, waitFg, s0.forks)
    ensures l.first == (if stages == [] then -1 else CallResult(l.cs[0]))
    ensures s.next == s0.next + 2 * PipesMade(|stages|, |stages|)
    ensures s.fds == s0.fds + (if |stages| < 2 then {} else {StageIn(|stages| - 1, s0.next)})
    ensures s.forks == Drop(s0.forks, ForkCount(l.cs))
    ensures s.cmd == FgCmdAfter(l.cs, s0.cmd) && (!waitFg ==> s.pgid == s0.pgid)
  {
  }

  /** The shell process: its open descriptors, the next fresh descriptor
      number, the answers `fork` will give, and a log of the `run_single`
      calls. */
  class Shell {
    var fds: set<int>
    var next: int
    var forks: seq<int>
    ghost var calls: seq<Call>
    const fg: Signals.Foreground

    ghost predicate Valid()
      reads this
    {
      3 <= next && forall fd :: fd in fds ==> fd < next
    }

    /** The part of the state a run changes. */
    ghost function Now(): Snap
      reads this, fg
    {
      Snap(calls, forks, next, fds, fg.pgid, fg.cmd)
    }

    constructor (fg0: Signals.Foreground, answers: seq<int>)
      ensures Valid() && fds == {0, 1, 2} && next == 3 && forks == answers
      ensures calls == [] && fg == fg0
    {
      fds := {0, 1, 2};
      next := 3;
      forks := answers;
      calls := [];
      fg := fg0;
    }

    method Fork() returns (pid: int)
      modifies this
      ensures pid == ForkAnswer(old(forks)) && forks == Drop(old(forks), 1)
      ensures fds == old(fds) && next == old(next) && calls == old(calls)
    {
      pid := if |forks| > 0 && forks[0] > 0 then forks[0] else -1;
      forks := if |forks| > 0 then forks[1..] else [];
    }

    /** `pipe`, which the model takes to succeed: two fresh descriptors. */
    method Pipe() returns (p: PipeFds)
      requires Valid()
      modifies this
      ensures Valid()
      ensures p == PipeFds(old(next), old(next) + 1) && next == old(next) + 2
      ensures fds == old(fds) + {p.read, p.write} && forks == old(forks) && calls == old(calls)
    {
      p := PipeFds(next, next + 1);
      fds := fds + {p.read, p.write};
      next := next + 2;
    }

    method Close(fd: int)
      requires Valid()
      modifies this
      ensures Valid()
      ensures fds == old(fds) - {fd} && next == old(next) && forks == old(forks) && calls == old(calls)
    {
      fds := fds - {fd};
    }

    /** The parent's half of `run_single`: parse the stage, fork, put the
        child in group `pgLead` (or its own), and for a foreground stage
        record it as the foreground job, wait for it, then clear the
        record. A failed fork yields -1, which `waitpid` then reads as any
        child. */
    method RunSingle(cmd: array<char>, inFd: int, outFd: int, waitFg: bool, bgDetach: bool, pgLead: int)
      returns (pid: int)
      requires TermFrom(cmd[..], 0)
      modifies this, fg, cmd
      ensures fds == old(fds) && next == old(next)
      ensures var c := RunSingleCall(Content(old(cmd[..])), ParseStage(old(cmd[..])), inFd, outFd, waitFg,
                                     bgDetach, pgLead, old(forks));
        calls == old(calls) + [c] && pid == CallResult(c) &&
        forks == (if c.outcome.Forked? then Drop(old(forks), 1) else old(forks)) &&
        fg.pgid == FgPgidAfterCall(c, old(fg.pgid)) && fg.cmd == FgCmdAfterCall(c, old(fg.cmd))
    {
      ghost var mem := cmd[..];
      ghost var f := forks;
      var p := ParseStageInPlace(cmd);
      assert mem[|mem| - 1] == NUL;
      ghost var c := RunSingleCall(Content(mem), ParseStage(mem), inFd, outFd, waitFg, bgDetach, pgLead, f);
      if p.None? {
        calls := calls + [c];
        return -1;
      }
      var parsed := p.value;
      pid := Fork();
      var group := if pgLead > 0 then pgLead else pid;
      if waitFg {
        fg.Set(group, Argv0(parsed));
        fg.Clear();
      }
      calls := calls + [c];
    }

    /** `execute_command`: the line is split at `|` into at most 16
        stages. A single stage runs on the shell's own stdin and stdout;
        more stages run as a pipeline. Returns 0 and the first stage's
        result. */
    method ExecuteCommand(line: seq<char>, waitFg: bool) returns (status: int, first: int)
      requires Valid() && NUL !in line
      modifies this, fg
      ensures Valid() && status == 0
      ensures var stages := Take(Tokens.Tokens(line, "|"), MaxStages);
        |old(calls)| <= |calls| && calls[..|old(calls)|] == old(calls) &&
        |calls| == |old(calls)| + |stages| &&
        PipelineSoFar(calls[|old(calls)|..], stages, Parses(stages), old(next), waitFg, old(forks)) &&
        first == (if stages == [] then -1 else CallResult(calls[|old(calls)|])) &&
        next == old(next) + 2 * PipesMade(|stages|, |stages|) &&
        fds == old(fds) + (if |stages| < 2 then {} else {StageIn(|stages| - 1, old(next))}) &&
        forks == Drop(old(forks), ForkCount(calls[|old(calls)|..])) &&
        fg.cmd == FgCmdAfter(calls[|old(calls)|..], old(fg.cmd)) &&
        fg.pgid == FgPgidAfter(calls[|old(calls)|..], waitFg, old(fg.pgid))
    {
      var toks := Tokens.Tokens(line, "|");
      StagesAreStrings(line);
      var stages := Take(toks, MaxStages);
      assert forall j :: 0 <= j < |stages| ==> stages[j] in toks;
      if |stages| == 1 {
        first := RunAlone(stages[0], waitFg);
      } else {
        first := RunPipeline(stages, waitFg);
      }
      status := 0;
    }

    /** A single stage: on the shell's own stdin and stdout, in a group of
        its own. */
    method RunAlone(stage: seq<char>, waitFg: bool) returns (first: int)
      requires Valid() && NUL !in stage
      modifies this, fg
      ensures Valid()
      ensures |old(calls)| < |calls| && calls[..|old(calls)|] == old(calls) &&
        |calls| == |old(calls)| + 1 &&
        PipelineSoFar(calls[|old(calls)|..], [stage], Parses([stage]), old(next), waitFg, old(forks)) &&
        first == CallResult(calls[|old(calls)|]) &&
        next == old(next) && fds == old(fds) &&
        forks == Drop(old(forks), ForkCount(calls[|old(calls)|..])) &&
        fg.cmd == FgCmdAfter(calls[|old(calls)|..], old(fg.cmd)) &&
        fg.pgid == FgPgidAfter(calls[|old(calls)|..], waitFg, old(fg.pgid))
    {
      ghost var c0 := calls;
      ghost var f0 := forks;
      var buf := MakeBuffer(stage);
      first := RunSingle(buf, 0, 1, waitFg, !waitFg, -1);
      ghost var c := calls[|calls| - 1];
      assert calls == c0 + [c];
      ContentOfMemory(stage);
      assert Drop(f0, 0) == f0;
      StageCallOfRun(c, [], [stage], Parses([stage]), next, waitFg, f0);
      PipelineExtend([], c, [stage], Parses([stage]), next, waitFg, f0);
      assert calls[|c0|..] == [c];
      ForkCountSnoc([], c);
    }

    /** One turn of the pipeline loop: unless the stage is the last, a
        fresh pipe for its stdout; the stage itself; then the pipe's write
        end and the stage's own stdin (unless that is the shell's) are
        closed, and the read end is the next stage's stdin. */
    method PipeStage(stage: seq<char>, inFd: int, last: bool, waitFg: bool, pg: int) returns (p: int, nextIn: int)
      requires Valid() && NUL !in stage && inFd < next
      modifies this, fg
      ensures Valid() && StageStep(old(Now()), Now(), stage, ParseStage(Memory(stage)), inFd, last, waitFg, pg, p, nextIn)
    {
      ghost var s := Now();
      var pair := PipeFds(-1, -1);
      if !last {
        pair := Pipe();
      }
      ghost var a := Now();
      var out := if last then 1 else pair.write;
      p := RunStage(stage, inFd, out, waitFg && last, !waitFg, pg);
      ghost var m := Now();
      nextIn := inFd;
      if !last {
        ClosePipeEnds(pair.write, inFd);
        nextIn := pair.read;
      }
      StageStepOf(s, a, m, Now(), stage, inFd, last, waitFg, pg, p, nextIn);
    }

    /** `run_single` on a fresh copy of the stage text. */
    method RunStage(stage: seq<char>, inFd: int, out: int, waitFg: bool, bgDetach: bool, pg: int) returns (p: int)
      requires Valid() && NUL !in stage
      modifies this, fg
      ensures Valid() && fds == old(fds) && next == old(next)
      ensures var c := RunSingleCall(stage, ParseStage(Memory(stage)), inFd, out, waitFg, bgDetach, pg, old(forks));
        calls == old(calls) + [c] && p == CallResult(c) &&
        forks == (if c.outcome.Forked? then Drop(old(forks), 1) else old(forks)) &&
        fg.pgid == FgPgidAfterCall(c, old(fg.pgid)) && fg.cmd == FgCmdAfterCall(c, old(fg.cmd))
    {
      var buf := MakeBuffer(stage);
      ContentOfMemory(stage);
      p := RunSingle(buf, inFd, out, waitFg, bgDetach, pg);
    }

    /** The shell's closes after a stage that wrote into a pipe: the write
        end, and the stage's stdin unless it is the shell's own. */
    method ClosePipeEnds(write: int, inFd: int)
      requires Valid()
      modifies this
      ensures Valid() && next == old(next) && forks == old(forks) && calls == old(calls)
      ensures fds == old(fds) - {write} - (if inFd != 0 then {inFd} else {})
    {
      Close(write);
      if inFd != 0 {
        Close(inFd);
      }
    }

    /** Two or more stages (or none): every stage but the last writes into
        a fresh pipe whose read end is the next stage's stdin; after each
        such stage the shell closes that write end and the previous read
        end, so the last read end stays open; every stage joins the group
        of the first stage that forked; only the last one is waited for,
        and the foreground record is cleared at the end. */
    method RunPipeline(stages: seq<seq<char>>, waitFg: bool) returns (first: int)
      requires Valid() && |stages| != 1 && forall j :: 0 <= j < |stages| ==> NUL !in stages[j]
      modifies this, fg
      ensures Valid()
      ensures |old(calls)| <= |calls| && calls[..|old(calls)|] == old(calls) &&
        |calls| == |old(calls)| + |stages| &&
        PipelineSoFar(calls[|old(calls)|..], stages, Parses(stages), old(next), waitFg, old(forks)) &&
        first == (if stages == [] then -1 else CallResult(calls[|old(calls)|])) &&
        next == old(next) + 2 * PipesMade(|stages|, |stages|) &&
        fds == old(fds) + (if |stages| < 2 then {} else {StageIn(|stages| - 1, old(next))}) &&
        forks == Drop(old(forks), ForkCount(calls[|old(calls)|..])) &&
        fg.cmd == FgCmdAfter(calls[|old(calls)|..], old(fg.cmd)) &&
        fg.pgid == FgPgidAfter(calls[|old(calls)|..], waitFg, old(fg.pgid))
    {
      ghost var s0 := Now();
      ghost var cs, inFd, pg;
      first, cs, inFd, pg := PipelineLoop(stages, waitFg);
      PipelineDone(stages, Parses(stages), waitFg, Loop(cs, inFd, pg, first), Now(), s0);
      if waitFg {
        fg.Clear();
      }
      assert calls[|s0.calls|..] == cs;
    }

    /** The loop of `execute_command` over two or more stages (or none). */
    method PipelineLoop(stages: seq<seq<char>>, waitFg: bool)
      returns (first: int, ghost cs: seq<Call>, ghost lastIn: int, ghost group: int)
      requires Valid() && |stages| != 1 && forall j :: 0 <= j < |stages| ==> NUL !in stages[j]
      modifies this, fg
      ensures Valid() && |cs| == |stages|
      ensures ProgressOf(stages, Parses(stages), waitFg, Loop(cs, lastIn, group, first), Now(), old(Now()))
    {
      ghost var s0 := Now();
      var inFd, pg := 0, -1;
      first := -1;
      cs := [];
      var i := 0;
      while i < |stages|
        invariant Valid() && i == |cs| && ProgressOf(stages, Parses(stages), waitFg, Loop(cs, inFd, pg, first), Now(), s0)
        invariant 3 <= s0.next && forall fd :: fd in s0.fds ==> fd < s0.next
      {
        inFd, pg, first, cs := PipelineTurn(stages, waitFg, i, inFd, pg, first, cs, s0);
        i := i + 1;
      }
      lastIn, group := inFd, pg;
    }

    /** One turn of the loop of `execute_command`, for stage `|cs|`. */
    method PipelineTurn(stages: seq<seq<char>>, waitFg: bool, i: nat, inFd: int, pg: int, first: int, ghost cs: seq<Call>,
                        ghost s0: Snap)
      returns (inFd': int, pg': int, first': int, ghost cs': seq<Call>)
      requires Valid() && i == |cs| < |stages| != 1 && forall j :: 0 <= j < |stages| ==> NUL !in stages[j]
      requires ProgressOf(stages, Parses(stages), waitFg, Loop(cs, inFd, pg, first), Now(), s0)
      requires 3 <= s0.next && forall fd :: fd in s0.fds ==> fd < s0.next
      modifies this, fg
      ensures Valid() && |cs'| == |cs| + 1
      ensures ProgressOf(stages, Parses(stages), waitFg, Loop(cs', inFd', pg', first'), Now(), s0)
    {
      ghost var s := Now();
      ghost var l := Loop(cs, inFd, pg, first);
      InFdBelowNext(stages, l, s, s0);
      var p, nextIn := PipeStage(stages[i], inFd, i == |stages| - 1, waitFg, pg);
      ghost var t := Now();
      Turn(stages, Parses(stages), waitFg, l, s, t, s0, p, nextIn);
      ghost var l' := TurnLoop(l, t, p, nextIn);
      cs' := l'.cs;
      pg' := if p > 0 && pg == -1 then p else pg;
      first' := if i == 0 then p else first;
      inFd' := nextIn;
      assert l' == Loop(cs', inFd', pg', first');
    }
  }

  /** `fg_cmd` after a run: the last stage's `argv[0]` when it was forked
      in the foreground, and unchanged otherwise. */
  function FgCmdAfter(cs: seq<Call>, cmd0: seq<char>): seq<char>
  {
    if cs == [] then cmd0 else FgCmdAfterCall(cs[|cs| - 1], cmd0)
  }

  /** `fg_pgid` after a run: cleared in the foreground, except for a
      single stage that had no command. */
  function FgPgidAfter(cs: seq<Call>, waitFg: bool, pgid0: int): int
  {
    if !waitFg then pgid0
    else if |cs| == 1 && cs[0].outcome.NoCommand? then pgid0
    else -1
  }
}
