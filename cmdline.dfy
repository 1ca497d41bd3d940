/** The in-place text handling of src/execute.c: `trim`, the redirection
    scan of `run_single` and `split_argv`. Each works on a NUL-terminated
    buffer, writing NULs into it; the buffer is an array and the strings
    the C code later reads through its pointers are read off the array. */
module CommandText {
  import opened Wrappers
  import opened CStrings
  import Tokens

  predicate IsBlank(c: char) { c == ' ' || c == '\t' }

  /** `p` lies inside a buffer whose last byte is a NUL, so a C string
      starts at `p`. The buffers of this module are the text of one command
      stage followed by its terminator. */
  predicate TermFrom(mem: seq<char>, p: nat)
  {
    p < |mem| && mem[|mem| - 1] == NUL
  }

  /** The first NUL at or after `p`: where the C string at `p` ends. */
  function StrEnd(mem: seq<char>, p: nat): (e: nat)
    requires TermFrom(mem, p)
    ensures p <= e < |mem| && mem[e] == NUL
    ensures forall j :: p <= j < e ==> mem[j] != NUL
    decreases |mem| - p
  {
    if mem[p] == NUL then p else StrEnd(mem, p + 1)
  }

  /** The C string starting at `p`. */
  function StrAt(mem: seq<char>, p: nat): seq<char>
    requires TermFrom(mem, p)
  {
    mem[p..StrEnd(mem, p)]
  }

  // ---------------------------------------------------------------- trim

  function TrimRight(s: seq<char>): (r: seq<char>)
    ensures r <= s && (r == [] || !IsBlank(r[|r| - 1]))
    ensures forall k :: |r| <= k < |s| ==> IsBlank(s[k])
  {
    if s != [] && IsBlank(s[|s| - 1]) then TrimRight(s[..|s| - 1]) else s
  }

  function TrimLeft(s: seq<char>): (r: seq<char>)
    ensures |r| <= |s|
  {
    if s != [] && IsBlank(s[0]) then TrimLeft(s[1..]) else s
  }

  /** TrimLeft drops a prefix of blanks and stops at a non-blank. */
  lemma {:induction false} TrimLeftShape(s: seq<char>)
    ensures var r := TrimLeft(s);
      r == s[|s| - |r|..] && (r == [] || !IsBlank(r[0])) &&
      forall k :: 0 <= k < |s| - |r| ==> IsBlank(s[k])
  {
    if s != [] && IsBlank(s[0]) {
      TrimLeftShape(s[1..]);
      assert s[1..][|s| - 1 - |TrimLeft(s)|..] == s[|s| - |TrimLeft(s)|..];
    }
  }

  /** trim: the text without its leading and trailing spaces and tabs. */
  function TrimSpec(s: seq<char>): seq<char>
  {
    TrimLeft(TrimRight(s))
  }

  /** The trimmed text is the run of `s` between a blank prefix and a blank
      suffix, and starts and ends with a non-blank when it is not empty. */
  lemma TrimShape(s: seq<char>)
    ensures var t := TrimSpec(s);
      exists i, j :: 0 <= i <= j <= |s| && t == s[i..j] &&
        (forall k :: 0 <= k < i ==> IsBlank(s[k])) && (forall k :: j <= k < |s| ==> IsBlank(s[k]))
    ensures var t := TrimSpec(s); t != [] ==> !IsBlank(t[0]) && !IsBlank(t[|t| - 1])
  {
    var r := TrimRight(s);
    var t := TrimLeft(r);
    var i := |r| - |t|;
    TrimLeftShape(r);
    assert t == s[i..|r|];
    if t != [] {
      assert t[|t| - 1] == r[|r| - 1];
    }
  }

  lemma TrimLeftKeepsRight(s: seq<char>)
    requires s == [] || !IsBlank(s[|s| - 1])
    ensures TrimRight(TrimLeft(s)) == TrimLeft(s)
  {
    TrimLeftShape(s);
    var t := TrimLeft(s);
    if t != [] {
      assert t[|t| - 1] == s[|s| - |t|..][|t| - 1] == s[|s| - 1];
      assert !IsBlank(t[|t| - 1]);
    }
  }

  /** Trimming twice is trimming once. */
  lemma TrimIdempotent(s: seq<char>)
    ensures TrimSpec(TrimSpec(s)) == TrimSpec(s)
  {
    var r := TrimRight(s);
    TrimLeftKeepsRight(r);
    TrimLeftShape(r);
    NoLeadingBlank(TrimLeft(r));
  }

  /** The memmove(s, s + 1, strlen(s)) step: the string with its terminator
      moves down by one byte. */
  method ShiftDown(a: array<char>, len: nat)
    requires 0 < len < a.Length
    modifies a
    ensures a[..len] == old(a[1..len + 1])
    ensures a[len..] == old(a[len..])
  {
    ghost var orig := a[..];
    var i := 0;
    while i < len
      invariant 0 <= i <= len
      invariant forall k :: 0 <= k < i ==> a[k] == orig[k + 1]
      invariant forall k :: i <= k < a.Length ==> a[k] == orig[k]
    {
      a[i] := a[i + 1];
      i := i + 1;
    }
    assert forall k :: 0 <= k < len ==> a[..len][k] == orig[1..len + 1][k];
    assert forall k :: 0 <= k < a.Length - len ==> a[len..][k] == orig[len..][k];
  }

  /** `k` NUL bytes. */
  function Nuls(k: nat): (z: seq<char>)
    ensures |z| == k && forall i :: 0 <= i < k ==> z[i] == NUL
  {
    seq(k, _ => NUL)
  }

  /** The buffer trim leaves behind: the trimmed string, NULs over the rest
      of the old string and its terminator, and every later byte as it was. */
  function TrimmedBuffer(mem: seq<char>): (r: seq<char>)
    requires NUL in mem
    ensures |r| == |mem|
  {
    var n := StrLen(mem);
    var t := TrimSpec(mem[..n]);
    TrimShape(mem[..n]);
    t + Nuls(n - |t|) + mem[n..]
  }

  /** As a C string, the trimmed buffer holds the trimmed text; no byte
      from the old terminator on has changed. */
  lemma TrimmedBufferContent(mem: seq<char>)
    requires NUL in mem
    ensures var r := TrimmedBuffer(mem);
      NUL in r && Content(r) == TrimSpec(Content(mem)) &&
      StrLen(r) <= StrLen(mem) && r[StrLen(mem)..] == mem[StrLen(mem)..]
  {
    var n := StrLen(mem);
    var t := TrimSpec(mem[..n]);
    TrimShape(mem[..n]);
    var r := TrimmedBuffer(mem);
    assert r[|t|] == NUL;
    assert forall k :: 0 <= k < |t| ==> r[k] == t[k] && t[k] != NUL;
    StrLenIs(r, |t|);
    assert r[..|t|] == t;
  }

  /** The first loop of trim: trailing blanks are overwritten by NULs. */
  method TrimTrailing(a: array<char>) returns (n: nat)
    requires NUL in a[..]
    modifies a
    ensures var len0 := old(StrLen(a[..])); var r := TrimRight(old(Content(a[..])));
      n == |r| && n <= len0 < a.Length && a[..n] == r &&
      (forall j :: n <= j <= len0 ==> a[j] == NUL) && forall j :: len0 < j < a.Length ==> a[j] == old(a[j])
  {
    ghost var s := Content(a[..]);
    ghost var len0 := StrLen(a[..]);
    n := Strlen(a);
    while n > 0 && IsBlank(a[n - 1])
      invariant 0 <= n <= len0
      invariant a[..n] == s[..n] && forall j :: n <= j <= len0 ==> a[j] == NUL
      invariant TrimRight(s[..n]) == TrimRight(s)
      invariant forall j :: len0 < j < a.Length ==> a[j] == old(a[j])
    {
      assert s[..n - 1] == s[..n][..n - 1];
      a[n - 1] := NUL;
      n := n - 1;
    }
  }

  /** What the second loop of trim leaves in a buffer whose string has
      length `len`: the string without its leading blanks, NULs up to and
      including the old terminator, and every later byte as it was. */
  function LeadResult(b: seq<char>, len: nat): (r: seq<char>)
    requires len < |b|
    ensures |r| == |b|
  {
    var t := TrimLeft(b[..len]);
    TrimLeftShorter(b[..len]);
    t + Nuls(len + 1 - |t|) + b[len + 1..]
  }

  lemma TrimLeftShorter(s: seq<char>)
    ensures |TrimLeft(s)| <= |s|
  {
  }

  /** The second loop of trim: while the string starts with a blank, it
      moves down by one byte, terminator included. */
  method TrimLeading(a: array<char>, len: nat)
    requires len < a.Length && a[len] == NUL && NUL !in a[..len]
    modifies a
    ensures a[..] == LeadResult(old(a[..]), len)
  {
    ghost var orig := a[..];
    LeadStart(orig, len);
    var m := LeadLoop(a, len, orig[..len], orig);
    LeadFinal(a[..], m, len, orig);
  }

  lemma LeadStart(b: seq<char>, len: nat)
    requires len < |b| && b[len] == NUL && NUL !in b[..len]
    ensures LeadState(b, len, len, b[..len], b)
  {
    assert b[len..len + 1] == [NUL] == Nuls(1);
  }

  /** The loop itself: it stops at the first non-blank character. */
  method LeadLoop(a: array<char>, len: nat, ghost t: seq<char>, ghost orig: seq<char>) returns (m: nat)
    requires LeadState(a[..], len, len, t, orig)
    modifies a
    ensures LeadState(a[..], m, len, t, orig) && !IsBlank(a[0])
  {
    m := len;
    while IsBlank(a[0])
      invariant LeadState(a[..], m, len, t, orig)
      decreases m
    {
      LeadStep(a, m, len, t, orig);
      m := m - 1;
    }
  }

  /** The state of trim's second loop after the string at the start of the
      buffer has shrunk from `t` (of length `len`) to length `m`. */
  ghost predicate LeadState(b: seq<char>, m: nat, len: nat, t: seq<char>, orig: seq<char>)
  {
    m <= len < |b| && |orig| == |b| && NUL !in b[..m] &&
    TrimLeft(b[..m]) == TrimLeft(t) &&
    b[m..len + 1] == Nuls(len + 1 - m) && b[len + 1..] == orig[len + 1..]
  }

  method LeadStep(a: array<char>, m: nat, ghost len: nat, ghost t: seq<char>, ghost orig: seq<char>)
    requires LeadState(a[..], m, len, t, orig) && IsBlank(a[0])
    modifies a
    ensures m > 0 && LeadState(a[..], m - 1, len, t, orig)
  {
    ghost var b0 := a[..];
    DropFirst(a, m);
    ghost var b1 := a[..];
    assert b1[..m - 1] == b0[1..m] && b1[m - 1] == NUL && NUL !in b1[..m - 1];
    assert b1[m..] == b0[m..];
    LeadAfterDrop(b0, b1, m, len, t, orig);
  }

  lemma LeadAfterDrop(b0: seq<char>, b1: seq<char>, m: nat, len: nat, t: seq<char>, orig: seq<char>)
    requires LeadState(b0, m, len, t, orig) && IsBlank(b0[0]) && |b1| == |b0|
    requires m > 0 && b1[..m - 1] == b0[1..m] && b1[m - 1] == NUL && NUL !in b1[..m - 1]
    requires b1[m..] == b0[m..]
    ensures LeadState(b1, m - 1, len, t, orig)
  {
    assert b1[m..len + 1] == b1[m..][..len + 1 - m] == b0[m..len + 1];
    assert b1[m - 1..len + 1] == [NUL] + b1[m..len + 1];
    assert b1[len + 1..] == b1[m..][len + 1 - m..] == b0[len + 1..];
    assert TrimLeft(b1[..m - 1]) == TrimLeft(b0[..m]) by {
      assert b1[..m - 1] == b0[..m][1..];
    }
  }

  lemma LeadFinal(b: seq<char>, m: nat, len: nat, orig: seq<char>)
    requires len < |orig| && LeadState(b, m, len, orig[..len], orig) && !IsBlank(b[0])
    ensures b == LeadResult(orig, len)
  {
    NoLeadingBlank(b[..m]);
    ThreeParts(b, m, len + 1);
  }

  lemma ThreeParts(b: seq<char>, i: nat, j: nat)
    requires i <= j <= |b|
    ensures b == b[..i] + b[i..j] + b[j..]
  {
  }

  /** A string that does not start with a blank is its own TrimLeft. */
  lemma NoLeadingBlank(h: seq<char>)
    requires h == [] || !IsBlank(h[0])
    ensures TrimLeft(h) == h
  {
  }

  /** One pass of the second loop of trim: `memmove(s, s + 1, strlen(s))`
      on a string of length `m`. */
  method DropFirst(a: array<char>, m: nat)
    requires 0 < m < a.Length && a[m] == NUL && NUL !in a[..m]
    modifies a
    ensures a[..m - 1] == old(a[1..m]) && a[m - 1] == NUL && NUL !in a[..m - 1]
    ensures a[m..] == old(a[m..])
  {
    StrLenIs(a[..], m);
    var l := Strlen(a);
    ShiftDown(a, l);
    assert a[..m - 1] == a[..m][..m - 1];
  }

  /** trim, in place. */
  method Trim(a: array<char>)
    requires NUL in a[..]
    modifies a
    ensures NUL in old(a[..]) && a[..] == TrimmedBuffer(old(a[..]))
  {
    ghost var mem := a[..];
    var n := TrimTrailing(a);
    ghost var mid := a[..];
    TrailFacts(mem, mid, n);
    TrimLeading(a, n);
    TrimFinish(mem, mid, n);
  }

  /** What the first loop of trim leaves: the string without its trailing
      blanks, then NULs up to the old terminator, then the bytes after it. */
  lemma TrailFacts(mem: seq<char>, mid: seq<char>, n: nat)
    requires NUL in mem && |mid| == |mem|
    requires var len0 := StrLen(mem); var r := TrimRight(Content(mem));
      n == |r| && n <= len0 && mid[..n] == r &&
      (forall j :: n <= j <= len0 ==> mid[j] == NUL) && forall j :: len0 < j < |mid| ==> mid[j] == mem[j]
    ensures n <= StrLen(mem) < |mid| && mid[n] == NUL && NUL !in mid[..n]
    ensures mid[..n] == TrimRight(Content(mem))
    ensures mid[n + 1..] == Nuls(StrLen(mem) - n) + mem[StrLen(mem) + 1..]
  {
    var len0 := StrLen(mem);
    var s := Content(mem);
    assert NUL !in s;
    assert mid[..n] <= s;
    TrailingTail(mem, mid, len0, n);
  }

  /** The two loops together leave the trimmed buffer. */
  lemma TrimFinish(mem: seq<char>, mid: seq<char>, n: nat)
    requires NUL in mem && n <= StrLen(mem) < |mid| == |mem|
    requires mid[..n] == TrimRight(Content(mem))
    requires mid[n + 1..] == Nuls(StrLen(mem) - n) + mem[StrLen(mem) + 1..]
    ensures LeadResult(mid, n) == TrimmedBuffer(mem)
  {
    var t := TrimLeft(mid[..n]);
    TrimOfTrailing(mem, mid[..n]);
    LeadResultIs(mid, n);
    TrimmedBufferIs(mem);
    Glue(LeadResult(mid, n), TrimmedBuffer(mem), t, mem, mid, n, StrLen(mem));
  }

  lemma Glue(l: seq<char>, tb: seq<char>, t: seq<char>, mem: seq<char>, mid: seq<char>, n: nat, len0: nat)
    requires n <= len0 < |mid| == |mem| && mem[len0] == NUL && |t| <= n
    requires mid[n + 1..] == Nuls(len0 - n) + mem[len0 + 1..]
    requires l == t + Nuls(n + 1 - |t|) + mid[n + 1..]
    requires tb == t + Nuls(len0 - |t|) + mem[len0..]
    ensures l == tb
  {
    BufferFromParts(mem, mid, t, len0, n);
  }

  lemma TrimOfTrailing(mem: seq<char>, r: seq<char>)
    requires NUL in mem && r == TrimRight(Content(mem))
    ensures TrimLeft(r) == TrimSpec(Content(mem))
  {
  }

  lemma LeadResultIs(b: seq<char>, len: nat)
    requires len < |b|
    ensures var t := TrimLeft(b[..len]);
      |t| <= len && LeadResult(b, len) == t + Nuls(len + 1 - |t|) + b[len + 1..]
  {
  }

  lemma TrimmedBufferIs(mem: seq<char>)
    requires NUL in mem
    ensures var t := TrimSpec(Content(mem));
      |t| <= StrLen(mem) && TrimmedBuffer(mem) == t + Nuls(StrLen(mem) - |t|) + mem[StrLen(mem)..]
  {
    TrimShape(Content(mem));
  }

  lemma BufferFromParts(mem: seq<char>, mid: seq<char>, t: seq<char>, len0: nat, n: nat)
    requires n <= len0 < |mem| == |mid| && mem[len0] == NUL && |t| <= n
    requires mid[n + 1..] == Nuls(len0 - n) + mem[len0 + 1..]
    ensures t + Nuls(n + 1 - |t|) + mid[n + 1..] == t + Nuls(len0 - |t|) + mem[len0..]
  {
    NulThenRest(mem, len0);
    Regroup(t, mem[len0 + 1..], n + 1 - |t|, len0 - n);
  }

  lemma NulThenRest(mem: seq<char>, i: nat)
    requires i < |mem| && mem[i] == NUL
    ensures mem[i..] == Nuls(1) + mem[i + 1..]
  {
  }

  /** Runs of NULs merge and split freely. */
  lemma Regroup(t: seq<char>, rest: seq<char>, i: nat, j: nat)
    requires i >= 1
    ensures t + Nuls(i) + (Nuls(j) + rest) == t + Nuls(i + j - 1) + (Nuls(1) + rest)
  {
    NulsAdd(i, j);
    NulsAdd(i + j - 1, 1);
    calc {
      t + Nuls(i) + (Nuls(j) + rest);
      t + (Nuls(i) + Nuls(j)) + rest;
      t + (Nuls(i + j - 1) + Nuls(1)) + rest;
      t + Nuls(i + j - 1) + (Nuls(1) + rest);
    }
  }

  /** After the first loop, the bytes past the trimmed-right string. */
  lemma TrailingTail(mem: seq<char>, mid: seq<char>, len0: nat, n: nat)
    requires n <= len0 < |mem| == |mid|
    requires (forall j :: n <= j <= len0 ==> mid[j] == NUL) && forall j :: len0 < j < |mid| ==> mid[j] == mem[j]
    ensures mid[n + 1..] == Nuls(len0 - n) + mem[len0 + 1..]
  {
    var want := Nuls(len0 - n) + mem[len0 + 1..];
    assert forall k :: 0 <= k < len0 - n ==> mid[n + 1..][k] == mid[n + 1 + k] == want[k];
    assert forall k :: len0 - n <= k < |want| ==> mid[n + 1..][k] == mid[n + 1 + k] == want[k];
  }

  lemma NulsAdd(i: nat, j: nat)
    ensures Nuls(i) + Nuls(j) == Nuls(i + j)
  {
    assert forall k :: 0 <= k < i + j ==> (Nuls(i) + Nuls(j))[k] == NUL;
  }

  lemma BufferIs(b: seq<char>, t: seq<char>, n: nat, mem: seq<char>)
    requires |b| == |mem| && |t| <= n < |mem| && mem[n] == NUL
    requires b[..|t|] == t && forall j :: |t| <= j <= n ==> b[j] == NUL
    requires forall j :: n < j < |mem| ==> b[j] == mem[j]
    ensures b == t + Nuls(n - |t|) + mem[n..]
  {
    var want := t + Nuls(n - |t|) + mem[n..];
    assert forall k :: 0 <= k < |t| ==> b[k] == want[k];
    assert forall k :: |t| <= k < n ==> b[k] == want[k];
    assert forall k :: n <= k < |b| ==> b[k] == want[k];
  }

  /** strlen on a buffer. */
  method Strlen(a: array<char>) returns (n: nat)
    requires NUL in a[..]
    ensures n == StrLen(a[..])
  {
    n := 0;
    while a[n] != NUL
      invariant n <= StrLen(a[..])
      decreases StrLen(a[..]) - n
    {
      n := n + 1;
    }
  }

  /** The terminator is the first NUL. */
  lemma StrLenIs(mem: seq<char>, n: nat)
    requires n < |mem| && mem[n] == NUL && NUL !in mem[..n]
    ensures NUL in mem && StrLen(mem) == n && Content(mem) == mem[..n]
  {
  }

  // ------------------------------------------------- redirection scan

  const MaxInfiles: nat := 8
  const MaxOutfiles: nat := 8

  predicate IsRedir(c: char) { c == '<' || c == '>' }

  /** The kind of target a redirection character announces. */
  datatype Kind = Input | Output(append: bool)

  /** An output target: where its name starts and whether it appends. */
  datatype OutTarget = OutTarget(at: nat, append: bool)

  /** Where the scan loop of run_single is within one byte of `cmd`:
      looking for the next `<` or `>` (strpbrk), skipping the blanks after
      one, or walking the word strtok cuts off from `start`. */
  datatype Mode = Seek | Skip(kind: Kind) | Cut(start: nat)

  datatype Sc = Sc(mem: seq<char>, p: nat, mode: Mode, ins: seq<nat>, outs: seq<OutTarget>)

  predicate GoodSc(s: Sc)
  {
    TermFrom(s.mem, s.p) && (s.mode.Cut? ==> s.mode.start <= s.p)
  }

  /** The position scanning resumes from once the current phase is over. */
  function Anchor(s: Sc): nat
  {
    if s.mode.Cut? then s.mode.start else s.p
  }

  function Rank(s: Sc): nat
  {
    match s.mode
    case Seek => 0
    case Skip(_) => |s.mem| + 2
    case Cut(_) => if s.p <= |s.mem| then 1 + |s.mem| - s.p else 0
  }

  predicate RecordsMore(s: Sc, kind: Kind)
  {
    if kind.Input? then |s.ins| < MaxInfiles else |s.outs| < MaxOutfiles
  }

  /** One byte of the scan loop; None once strpbrk finds the terminator. */
  function ScanStep(s: Sc): (r: Option<Sc>)
    requires GoodSc(s)
    ensures r.Some? ==> GoodSc(r.value) && |r.value.mem| == |s.mem|
    ensures r.Some? ==> Anchor(s) < Anchor(r.value) || (Anchor(s) == Anchor(r.value) && Rank(r.value) < Rank(s))
  {
    var c := s.mem[s.p];
    match s.mode
    case Seek =>
      if c == NUL then None
      else if c == '<' then Some(s.(mem := s.mem[s.p := NUL], p := s.p + 1, mode := Skip(Input)))
      else if c == '>' && s.mem[s.p + 1] == '>' then
        Some(s.(mem := s.mem[s.p := NUL], p := s.p + 2, mode := Skip(Output(true))))
      else if c == '>' then Some(s.(mem := s.mem[s.p := NUL], p := s.p + 1, mode := Skip(Output(false))))
      else Some(s.(p := s.p + 1))
    case Skip(kind) =>
      if IsBlank(c) then Some(s.(p := s.p + 1))
      else if c == NUL || !RecordsMore(s, kind) then Some(s.(mode := Seek))
      else if kind.Input? then Some(s.(mode := Cut(s.p), ins := s.ins + [s.p]))
      else Some(s.(mode := Cut(s.p), outs := s.outs + [OutTarget(s.p, kind.append)]))
    case Cut(start) =>
      if c == NUL then Some(s.(p := start, mode := Seek))
      else if IsBlank(c) then Some(s.(mem := s.mem[s.p := NUL], p := start, mode := Seek))
      else Some(s.(p := s.p + 1))
  }

  /** The scan loop run to its end: the final buffer and all targets. */
  function ScanRun(s: Sc): (r: Sc)
    requires GoodSc(s)
    decreases |s.mem| - Anchor(s), Rank(s)
  {
    match ScanStep(s)
    case None => s
    case Some(s') => ScanRun(s')
  }

  /** The scan of a whole stage buffer. */
  function Scan(mem: seq<char>): Sc
    requires TermFrom(mem, 0)
  {
    ScanRun(Sc(mem, 0, Seek, [], []))
  }

  /** strpbrk(p, "<>"): the first `<` or `>` at or after `p`, or the
      terminator; the scan only walks over the bytes in between. */
  method Strpbrk(a: array<char>, p: nat, ghost ins: seq<nat>, ghost outs: seq<OutTarget>) returns (k: nat)
    requires TermFrom(a[..], p)
    ensures p <= k < a.Length && (a[k] == NUL || IsRedir(a[k]))
    ensures forall j :: p <= j < k ==> a[j] != NUL && !IsRedir(a[j])
    ensures ScanRun(Sc(a[..], p, Seek, ins, outs)) == ScanRun(Sc(a[..], k, Seek, ins, outs))
  {
    k := p;
    while a[k] != NUL && !IsRedir(a[k])
      invariant p <= k < a.Length
      invariant forall j :: p <= j < k ==> a[j] != NUL && !IsRedir(a[j])
      invariant ScanRun(Sc(a[..], p, Seek, ins, outs)) == ScanRun(Sc(a[..], k, Seek, ins, outs))
      decreases a.Length - k
    {
      assert ScanStep(Sc(a[..], k, Seek, ins, outs)) == Some(Sc(a[..], k + 1, Seek, ins, outs));
      k := k + 1;
    }
  }

  /** The blank-skipping loop after a redirection character. */
  method SkipTargetBlanks(a: array<char>, p: nat, ghost kind: Kind, ghost ins: seq<nat>, ghost outs: seq<OutTarget>)
    returns (q: nat)
    requires TermFrom(a[..], p)
    ensures p <= q < a.Length && !IsBlank(a[q])
    ensures forall j :: p <= j < q ==> IsBlank(a[j])
    ensures ScanRun(Sc(a[..], p, Skip(kind), ins, outs)) == ScanRun(Sc(a[..], q, Skip(kind), ins, outs))
  {
    q := p;
    while IsBlank(a[q])
      invariant p <= q < a.Length
      invariant forall j :: p <= j < q ==> IsBlank(a[j])
      invariant ScanRun(Sc(a[..], p, Skip(kind), ins, outs)) == ScanRun(Sc(a[..], q, Skip(kind), ins, outs))
      decreases a.Length - q
    {
      assert ScanStep(Sc(a[..], q, Skip(kind), ins, outs)) == Some(Sc(a[..], q + 1, Skip(kind), ins, outs));
      q := q + 1;
    }
  }

  /** strtok(q, " \t") on a word starting at `q`: the blank that ends it,
      if any, becomes a NUL; scanning then resumes at `q`. */
  method Strtok(a: array<char>, q: nat, ghost ins: seq<nat>, ghost outs: seq<OutTarget>) returns (t: nat)
    requires TermFrom(a[..], q)
    modifies a
    ensures t == q && TermFrom(a[..], q)
    ensures ScanRun(Sc(old(a[..]), q, Cut(q), ins, outs)) == ScanRun(Sc(a[..], q, Seek, ins, outs))
  {
    var e := q;
    while a[e] != NUL && !IsBlank(a[e])
      invariant q <= e < a.Length
      invariant ScanRun(Sc(a[..], q, Cut(q), ins, outs)) == ScanRun(Sc(a[..], e, Cut(q), ins, outs))
      decreases a.Length - e
    {
      assert ScanStep(Sc(a[..], e, Cut(q), ins, outs)) == Some(Sc(a[..], e + 1, Cut(q), ins, outs));
      e := e + 1;
    }
    if a[e] != NUL {
      assert ScanStep(Sc(a[..], e, Cut(q), ins, outs)) == Some(Sc(a[..][e := NUL], q, Seek, ins, outs));
      a[e] := NUL;
    } else {
      assert ScanStep(Sc(a[..], e, Cut(q), ins, outs)) == Some(Sc(a[..], q, Seek, ins, outs));
    }
    t := q;
  }

  /** The redirection character at `k` becomes a NUL; a `>>` is passed
      over as a whole. */
  method CutRedirection(a: array<char>, k: nat, ghost ins: seq<nat>, ghost outs: seq<OutTarget>)
    returns (p: nat, kind: Kind)
    requires TermFrom(a[..], k) && IsRedir(a[k])
    modifies a
    ensures k < p && TermFrom(a[..], p)
    ensures ScanRun(Sc(old(a[..]), k, Seek, ins, outs)) == ScanRun(Sc(a[..], p, Skip(kind), ins, outs))
  {
    ghost var before := a[..];
    if a[k] == '<' {
      a[k] := NUL;
      p, kind := k + 1, Input;
    } else if a[k + 1] == '>' {
      a[k] := NUL;
      p, kind := k + 2, Output(true);
    } else {
      a[k] := NUL;
      p, kind := k + 1, Output(false);
    }
    assert ScanStep(Sc(before, k, Seek, ins, outs)) == Some(Sc(a[..], p, Skip(kind), ins, outs));
  }

  /** After the blanks, the word at `q` is recorded and cut off, unless the
      string ends there or that kind of target is full. */
  method TakeTarget(a: array<char>, p: nat, kind: Kind, ins: seq<nat>, outs: seq<OutTarget>)
    returns (q: nat, ins': seq<nat>, outs': seq<OutTarget>)
    requires TermFrom(a[..], p)
    modifies a
    ensures p <= q && TermFrom(a[..], q)
    ensures ScanRun(Sc(old(a[..]), p, Skip(kind), ins, outs)) == ScanRun(Sc(a[..], q, Seek, ins', outs'))
  {
    q := SkipTargetBlanks(a, p, kind, ins, outs);
    if a[q] == NUL || (kind.Input? && |ins| >= MaxInfiles) || (kind.Output? && |outs| >= MaxOutfiles) {
      assert ScanStep(Sc(a[..], q, Skip(kind), ins, outs)) == Some(Sc(a[..], q, Seek, ins, outs));
      ins', outs' := ins, outs;
    } else {
      ins', outs' := RecordTarget(a, q, kind, ins, outs);
    }
  }

  /** The table has room and a word starts at `q`: strtok cuts it off and
      its start is recorded. */
  method RecordTarget(a: array<char>, q: nat, kind: Kind, ins: seq<nat>, outs: seq<OutTarget>)
    returns (ins': seq<nat>, outs': seq<OutTarget>)
    requires TermFrom(a[..], q) && a[q] != NUL && !IsBlank(a[q])
    requires kind.Input? ==> |ins| < MaxInfiles
    requires kind.Output? ==> |outs| < MaxOutfiles
    modifies a
    ensures TermFrom(a[..], q)
    ensures ScanRun(Sc(old(a[..]), q, Skip(kind), ins, outs)) == ScanRun(Sc(a[..], q, Seek, ins', outs'))
  {
    ghost var gi := if kind.Input? then ins + [q] else ins;
    ghost var go := if kind.Input? then outs else outs + [OutTarget(q, kind.append)];
    assert ScanStep(Sc(a[..], q, Skip(kind), ins, outs)) == Some(Sc(a[..], q, Cut(q), gi, go));
    var t := Strtok(a, q, gi, go);
    if kind.Input? {
      ins', outs' := ins + [t], outs;
    } else {
      ins', outs' := ins, outs + [OutTarget(t, kind.append)];
    }
  }

  /** The redirection loop of run_single, in place on the stage buffer:
      it leaves the buffer and the recorded targets as `Scan` says. */
  method ScanRedirections(a: array<char>) returns (ins: seq<nat>, outs: seq<OutTarget>)
    requires TermFrom(a[..], 0)
    modifies a
    ensures var r := Scan(old(a[..])); a[..] == r.mem && ins == r.ins && outs == r.outs
  {
    ghost var spec := Scan(a[..]);
    var p := 0;
    ins, outs := [], [];
    while true
      invariant TermFrom(a[..], p)
      invariant ScanRun(Sc(a[..], p, Seek, ins, outs)) == spec
      decreases a.Length - p
    {
      var k := Strpbrk(a, p, ins, outs);
      if a[k] == NUL {
        assert ScanStep(Sc(a[..], k, Seek, ins, outs)).None?;
        break;
      }
      var kind;
      p, kind := CutRedirection(a, k, ins, outs);
      p, ins, outs := TakeTarget(a, p, kind, ins, outs);
    }
  }

  // ------------------------------------------------ facts about the scan

  /** At most 8 input and 8 output targets are recorded. */
  lemma {:induction false} ScanRunBounds(s: Sc)
    requires GoodSc(s) && |s.ins| <= MaxInfiles && |s.outs| <= MaxOutfiles
    ensures |ScanRun(s).ins| <= MaxInfiles && |ScanRun(s).outs| <= MaxOutfiles
    decreases |s.mem| - Anchor(s), Rank(s)
  {
    match ScanStep(s)
    case None =>
    case Some(s') => ScanRunBounds(s');
  }

  lemma ScanBounds(mem: seq<char>)
    requires TermFrom(mem, 0)
    ensures |Scan(mem).ins| <= MaxInfiles && |Scan(mem).outs| <= MaxOutfiles
  {
    ScanRunBounds(Sc(mem, 0, Seek, [], []));
  }

  /** Every target the scan records lies in the buffer, at or after the
      position the scan started from, and the buffer keeps its length and
      its final NUL. */
  lemma {:induction false} ScanRunRecords(s: Sc)
    requires GoodSc(s)
    ensures var r := ScanRun(s);
      GoodSc(r) && |r.mem| == |s.mem| &&
      |s.ins| <= |r.ins| && r.ins[..|s.ins|] == s.ins &&
      |s.outs| <= |r.outs| && r.outs[..|s.outs|] == s.outs &&
      (forall i :: |s.ins| <= i < |r.ins| ==> Anchor(s) <= r.ins[i] < |s.mem|) &&
      (forall i :: |s.outs| <= i < |r.outs| ==> Anchor(s) <= r.outs[i].at < |s.mem|)
    decreases |s.mem| - Anchor(s), Rank(s)
  {
    match ScanStep(s)
    case None =>
    case Some(s') =>
      ScanStepRecords(s);
      ScanRunRecords(s');
      var r := ScanRun(s');
      assert ScanRun(s) == r;
      assert r.ins[..|s'.ins|][..|s.ins|] == r.ins[..|s.ins|];
      assert r.outs[..|s'.outs|][..|s.outs|] == r.outs[..|s.outs|];
      forall i | |s.ins| <= i < |r.ins|
        ensures Anchor(s) <= r.ins[i] < |s.mem|
      {
        if i < |s'.ins| {
          assert r.ins[i] == r.ins[..|s'.ins|][i] == s'.ins[i];
        }
      }
      forall i | |s.outs| <= i < |r.outs|
        ensures Anchor(s) <= r.outs[i].at < |s.mem|
      {
        if i < |s'.outs| {
          assert r.outs[i] == r.outs[..|s'.outs|][i] == s'.outs[i];
        }
      }
  }

  /** One step of the scan writes nothing before where it starts. */
  lemma ScanStepKeeps(s: Sc)
    requires GoodSc(s) && ScanStep(s).Some?
    ensures var t := ScanStep(s).value;
      Anchor(s) <= Anchor(t) <= |s.mem| && t.mem[..Anchor(s)] == s.mem[..Anchor(s)]
  {
  }

  /** One step of the scan records at most one target, at or after where
      the step starts, and never moves the resume position back. */
  lemma ScanStepRecords(s: Sc)
    requires GoodSc(s) && ScanStep(s).Some?
    ensures var t := ScanStep(s).value;
      Anchor(s) <= Anchor(t) &&
      |s.ins| <= |t.ins| && t.ins[..|s.ins|] == s.ins &&
      |s.outs| <= |t.outs| && t.outs[..|s.outs|] == s.outs &&
      (forall i :: |s.ins| <= i < |t.ins| ==> Anchor(s) <= t.ins[i] < |s.mem|) &&
      (forall i :: |s.outs| <= i < |t.outs| ==> Anchor(s) <= t.outs[i].at < |s.mem|)
  {
  }

  /** The scan never writes before the position it resumes from. */
  lemma {:induction false} ScanRunKeepsBefore(s: Sc)
    requires GoodSc(s)
    ensures |ScanRun(s).mem| == |s.mem| && ScanRun(s).mem[..Anchor(s)] == s.mem[..Anchor(s)]
    decreases |s.mem| - Anchor(s), Rank(s)
  {
    match ScanStep(s)
    case None =>
    case Some(s') =>
      ScanStepKeeps(s);
      ScanRunKeepsBefore(s');
      var r := ScanRun(s');
      assert ScanRun(s) == r;
      assert r.mem[..Anchor(s')][..Anchor(s)] == r.mem[..Anchor(s)];
  }

  /** strpbrk's walk: bytes that are neither NUL nor `<`/`>` are passed over. */
  lemma {:induction false} SeekWalk(s: Sc, k: nat)
    requires GoodSc(s) && s.mode.Seek? && s.p <= k < |s.mem|
    requires forall j :: s.p <= j < k ==> s.mem[j] != NUL && !IsRedir(s.mem[j])
    ensures ScanRun(s) == ScanRun(s.(p := k))
    decreases k - s.p
  {
    if s.p < k {
      assert ScanStep(s) == Some(s.(p := s.p + 1));
      SeekWalk(s.(p := s.p + 1), k);
    }
  }

  /** strtok's walk over the bytes of a word. */
  lemma {:induction false} CutWalk(s: Sc, k: nat)
    requires GoodSc(s) && s.mode.Cut? && s.p <= k < |s.mem|
    requires forall j :: s.p <= j < k ==> s.mem[j] != NUL && !IsBlank(s.mem[j])
    ensures ScanRun(s) == ScanRun(s.(p := k))
    decreases k - s.p
  {
    if s.p < k {
      assert ScanStep(s) == Some(s.(p := s.p + 1));
      CutWalk(s.(p := s.p + 1), k);
    }
  }

  /** The first `<` or `>` of `s`, or `|s|` when there is none. */
  function RedirIndex(s: seq<char>): (n: nat)
    ensures n <= |s| && (n < |s| ==> IsRedir(s[n]))
    ensures forall j :: 0 <= j < n ==> !IsRedir(s[j])
  {
    if s == [] || IsRedir(s[0]) then 0 else 1 + RedirIndex(s[1..])
  }

  /** The command text of a stage: what precedes its first redirection. */
  function CommandPart(s: seq<char>): seq<char>
  {
    s[..RedirIndex(s)]
  }

  /** After the scan the buffer holds, as its C string, the stage text up to
      its first `<` or `>`. */
  lemma ScanCommandPart(mem: seq<char>)
    requires TermFrom(mem, 0)
    ensures NUL in Scan(mem).mem && Content(Scan(mem).mem) == CommandPart(Content(mem))
  {
    var f := ScanCutPoint(mem);
    StrLenIs(Scan(mem).mem, f);
    assert Content(Scan(mem).mem) == Scan(mem).mem[..f] == mem[..f];
  }

  /** The scan leaves the bytes before the first `<` or `>` as they were
      and puts a terminator there. */
  lemma ScanCutPoint(mem: seq<char>) returns (f: nat)
    requires TermFrom(mem, 0)
    ensures var r := Scan(mem).mem;
      f < |r| == |mem| && r[f] == NUL && r[..f] == mem[..f] && NUL !in r[..f] &&
      CommandPart(Content(mem)) == mem[..f]
  {
    var n := StrLen(mem);
    var text := Content(mem);
    assert text == mem[..n];
    f := RedirIndex(text);
    assert forall j :: 0 <= j < f ==> mem[j] == text[j];
    SeekWalk(Sc(mem, 0, Seek, [], []), f);
    var r := ScanRun(Sc(mem, f, Seek, [], [])).mem;
    assert Scan(mem).mem == r;
    if f == n {
      ScanStopsAt(mem, f);
      assert r == mem;
    } else {
      ScanCutsAt(mem, f);
      assert r[..f] == r[..f + 1][..f] == mem[..f];
    }
    assert mem[..f] == text[..f];
  }

  lemma ScanStopsAt(mem: seq<char>, f: nat)
    requires TermFrom(mem, f) && mem[f] == NUL
    ensures ScanRun(Sc(mem, f, Seek, [], [])).mem == mem
  {
  }

  lemma ScanCutsAt(mem: seq<char>, f: nat)
    requires TermFrom(mem, f) && IsRedir(mem[f])
    ensures var r := ScanRun(Sc(mem, f, Seek, [], []));
      |r.mem| == |mem| && r.mem[..f + 1] == mem[..f] + [NUL]
  {
    var s0 := Sc(mem, f, Seek, [], []);
    var s1 := ScanStep(s0).value;
    assert Anchor(s1) > f && s1.mem[..f + 1] == mem[..f] + [NUL];
    ScanRunKeepsBefore(s1);
    var r := ScanRun(s1);
    assert r.mem[..Anchor(s1)][..f + 1] == r.mem[..f + 1];
  }

  lemma {:induction false} SkipWalk(s: Sc, k: nat)
    requires GoodSc(s) && s.mode.Skip? && s.p <= k < |s.mem|
    requires forall j :: s.p <= j < k ==> IsBlank(s.mem[j])
    ensures ScanRun(s) == ScanRun(s.(p := k))
    decreases k - s.p
  {
    if s.p < k {
      assert ScanStep(s) == Some(s.(p := s.p + 1));
      SkipWalk(s.(p := s.p + 1), k);
    }
  }

  /** The kind of target the redirection operator at `f` announces. */
  function KindAt(mem: seq<char>, f: nat): Kind
    requires f + 1 < |mem|
  {
    if mem[f] == '<' then Input else Output(mem[f + 1] == '>')
  }

  /** The width of the redirection operator at `f`: 2 for `>>`, else 1. */
  function OpWidth(mem: seq<char>, f: nat): nat
    requires f + 1 < |mem|
  {
    if mem[f] == '>' && mem[f + 1] == '>' then 2 else 1
  }

  /** The target of `<`, `>` or `>>` is the next space/tab-delimited word;
      `>>` records an appending and `>` a truncating output target. When
      the word holds no `<` or `>` and ends the line or is followed by a
      blank, it is the only target recorded: the word is cut off there and
      scanning resumes at its start, meets the cut and stops, so a
      redirection after the blank is never looked at. Here the first
      operator is at `f`, its word at `[q, e)`, and `e` holds the blank or
      the terminator ending it. */
  lemma ScanFirstTarget(mem: seq<char>, f: nat, q: nat, e: nat)
    requires TermFrom(mem, 0) && f < q < e < |mem| && IsRedir(mem[f]) && (IsBlank(mem[e]) || mem[e] == NUL)
    requires forall j :: 0 <= j < f ==> mem[j] != NUL && !IsRedir(mem[j])
    requires f + OpWidth(mem, f) <= q
    requires forall j :: f + OpWidth(mem, f) <= j < q ==> IsBlank(mem[j])
    requires forall j :: q <= j < e ==> mem[j] != NUL && !IsBlank(mem[j]) && !IsRedir(mem[j])
    ensures var r := Scan(mem);
      var kind := KindAt(mem, f);
      r.ins == (if kind.Input? then [q] else []) &&
      r.outs == (if kind.Input? then [] else [OutTarget(q, kind.append)]) &&
      TermFrom(r.mem, q) && StrAt(r.mem, q) == mem[q..e] &&
      NUL in r.mem && Content(r.mem) == mem[..f]
  {
    var o := f + OpWidth(mem, f);
    var kind := KindAt(mem, f);
    ScanToOperator(mem, f);
    OperatorCut(mem, f, o, q, e);
    TargetThenStop(mem[f := NUL], o, q, e, kind);
    FirstTargetMem(mem, f, q, e);
  }

  /** Cutting the operator leaves the target word and its blanks alone. */
  lemma OperatorCut(mem: seq<char>, f: nat, o: nat, q: nat, e: nat)
    requires TermFrom(mem, 0) && f < o <= q < e < |mem| && (IsBlank(mem[e]) || mem[e] == NUL)
    requires forall j :: o <= j < q ==> IsBlank(mem[j])
    requires forall j :: q <= j < e ==> mem[j] != NUL && !IsBlank(mem[j]) && !IsRedir(mem[j])
    ensures var m := mem[f := NUL];
      m[|m| - 1] == NUL && (IsBlank(m[e]) || m[e] == NUL) &&
      (forall j :: o <= j < q ==> IsBlank(m[j])) &&
      (forall j :: q <= j < e ==> m[j] != NUL && !IsBlank(m[j]) && !IsRedir(m[j]))
  {
    var m := mem[f := NUL];
    assert forall j :: f < j < |mem| ==> m[j] == mem[j];
  }

  /** After both cuts the line is the text before the operator and the
      target word is intact. */
  lemma FirstTargetMem(mem: seq<char>, f: nat, q: nat, e: nat)
    requires f < q < e < |mem|
    requires forall j :: 0 <= j < f ==> mem[j] != NUL
    ensures var m := mem[f := NUL][e := NUL];
      m[q..e] == mem[q..e] && NUL in m && Content(m) == mem[..f]
  {
    var m := mem[f := NUL][e := NUL];
    assert m[q..e] == mem[q..e];
    assert m[..f] == mem[..f];
    StrLenIs(m, f);
  }

  /** The scan up to its first redirection operator, which it cuts. */
  lemma ScanToOperator(mem: seq<char>, f: nat)
    requires TermFrom(mem, 0) && f < |mem| && IsRedir(mem[f])
    requires forall j :: 0 <= j < f ==> mem[j] != NUL && !IsRedir(mem[j])
    ensures Scan(mem) == ScanRun(Sc(mem[f := NUL], f + OpWidth(mem, f), Skip(KindAt(mem, f)), [], []))
  {
    var s0 := Sc(mem, 0, Seek, [], []);
    SeekWalk(s0, f);
    assert ScanStep(s0.(p := f)) == Some(Sc(mem[f := NUL], f + OpWidth(mem, f), Skip(KindAt(mem, f)), [], []));
  }

  /** From the blanks after a redirection operator: the word at `q`, ended
      by a blank or the terminator at `e`, is recorded and cut off, and the
      scan stops at the cut. */
  lemma TargetThenStop(mem: seq<char>, o: nat, q: nat, e: nat, kind: Kind)
    requires o <= q < e < |mem| && mem[|mem| - 1] == NUL && (IsBlank(mem[e]) || mem[e] == NUL)
    requires forall j :: o <= j < q ==> IsBlank(mem[j])
    requires forall j :: q <= j < e ==> mem[j] != NUL && !IsBlank(mem[j]) && !IsRedir(mem[j])
    ensures var r := ScanRun(Sc(mem, o, Skip(kind), [], []));
      r.mem == mem[e := NUL] && r.p == e && TermFrom(r.mem, q) && StrEnd(r.mem, q) == e &&
      r.ins == (if kind.Input? then [q] else []) &&
      r.outs == (if kind.Input? then [] else [OutTarget(q, kind.append)])
  {
    var ins, outs := if kind.Input? then [q] else [], if kind.Input? then [] else [OutTarget(q, kind.append)];
    WordRecorded(mem, o, q, e, kind);
    CutThenStop(mem, q, e, ins, outs);
  }

  /** The blanks are skipped and the word at `q` is recorded; the cut walk
      reaches `e`. */
  lemma WordRecorded(mem: seq<char>, o: nat, q: nat, e: nat, kind: Kind)
    requires o <= q < e < |mem| && mem[|mem| - 1] == NUL
    requires forall j :: o <= j < q ==> IsBlank(mem[j])
    requires forall j :: q <= j < e ==> mem[j] != NUL && !IsBlank(mem[j]) && !IsRedir(mem[j])
    ensures ScanRun(Sc(mem, o, Skip(kind), [], [])) ==
      ScanRun(Sc(mem, e, Cut(q), if kind.Input? then [q] else [], if kind.Input? then [] else [OutTarget(q, kind.append)]))
  {
    var s1 := Sc(mem, o, Skip(kind), [], []);
    SkipWalk(s1, q);
    var ins, outs := if kind.Input? then [q] else [], if kind.Input? then [] else [OutTarget(q, kind.append)];
    var s2 := Sc(mem, q, Cut(q), ins, outs);
    assert [] + [q] == [q];
    assert kind.Output? ==> [] + [OutTarget(q, kind.append)] == [OutTarget(q, kind.append)];
    assert ScanStep(s1.(p := q)) == Some(s2);
    CutWalk(s2, e);
  }

  /** At the blank or terminator ending the word: the word is cut off, the
      scan resumes at its start, walks over it and stops at the cut. */
  lemma CutThenStop(mem: seq<char>, q: nat, e: nat, ins: seq<nat>, outs: seq<OutTarget>)
    requires q < e < |mem| && mem[|mem| - 1] == NUL && (IsBlank(mem[e]) || mem[e] == NUL)
    requires forall j :: q <= j < e ==> mem[j] != NUL && !IsBlank(mem[j]) && !IsRedir(mem[j])
    ensures var r := ScanRun(Sc(mem, e, Cut(q), ins, outs));
      r == Sc(mem[e := NUL], e, Seek, ins, outs) && TermFrom(r.mem, q) && StrEnd(r.mem, q) == e
  {
    var mem2 := mem[e := NUL];
    if mem[e] == NUL {
      assert mem2 == mem;
    }
    var s3 := Sc(mem2, q, Seek, ins, outs);
    assert ScanStep(Sc(mem, e, Cut(q), ins, outs)) == Some(s3);
    assert forall j :: q <= j < e ==> mem2[j] == mem[j];
    SeekWalk(s3, e);
    assert ScanStep(s3.(p := e)).None?;
  }

  // ------------------------------------------------ split_argv

  /** Where `split_argv`'s walk is: at the head of its outer loop, skipping
      blanks, or inside an unquoted or a quoted word. */
  datatype ArgMode = Head | Blanks | Plain | Quoted(quote: char)

  /** The buffer, the walk position, the mode and the word starts so far
      (the `argv` pointers, as offsets into the buffer). */
  datatype Sa = Sa(mem: seq<char>, p: nat, mode: ArgMode, argv: seq<nat>)

  predicate IsQuote(c: char) { c == '\'' || c == '"' }

  function ArgRank(m: ArgMode): nat
  {
    match m
    case Head => 2
    case Blanks => 1
    case _ => 0
  }

  /** One step of `split_argv` with room for `max` pointers; `None` once the
      walk is over. */
  function ArgStep(s: Sa, max: int): (r: Option<Sa>)
    requires TermFrom(s.mem, s.p)
    ensures r.Some? ==> TermFrom(r.value.mem, r.value.p) && |r.value.mem| == |s.mem|
    ensures r.Some? ==> s.p < r.value.p || (s.p == r.value.p && ArgRank(r.value.mode) < ArgRank(s.mode))
  {
    var c := s.mem[s.p];
    match s.mode
    case Head =>
      if c == NUL || |s.argv| >= max then None else Some(s.(mode := Blanks))
    case Blanks =>
      if IsBlank(c) then Some(s.(p := s.p + 1))
      else if c == NUL || |s.argv| >= max - 1 then None
      else if IsQuote(c) then Some(s.(p := s.p + 1, mode := Quoted(c), argv := s.argv + [s.p + 1]))
      else Some(s.(mode := Plain, argv := s.argv + [s.p]))
    case Plain =>
      if c == NUL then None
      else if IsBlank(c) then Some(s.(mem := s.mem[s.p := NUL], p := s.p + 1, mode := Head))
      else Some(s.(p := s.p + 1))
    case Quoted(q) =>
      if c == NUL then None
      else if c == q then Some(s.(mem := s.mem[s.p := NUL], p := s.p + 1, mode := Head))
      else Some(s.(p := s.p + 1))
  }

  function ArgRun(s: Sa, max: int): (r: Sa)
    requires TermFrom(s.mem, s.p)
    decreases |s.mem| - s.p, ArgRank(s.mode)
  {
    match ArgStep(s, max)
    case None => s
    case Some(s') => ArgRun(s', max)
  }

  /** `split_argv(cmd, argv, max)`: the rewritten buffer and the word starts;
      `argc` is the number of starts and `argv[argc]` the NULL after them. */
  function SplitArgvSpec(mem: seq<char>, max: int): Sa
    requires TermFrom(mem, 0)
  {
    ArgRun(Sa(mem, 0, Head, []), max)
  }

  /** The blank-skipping loop at the head of a word. */
  method ArgBlanks(a: array<char>, p: nat, ghost argv: seq<nat>, max: int) returns (k: nat)
    requires TermFrom(a[..], p)
    ensures p <= k < a.Length && !IsBlank(a[k])
    ensures ArgRun(Sa(a[..], p, Blanks, argv), max) == ArgRun(Sa(a[..], k, Blanks, argv), max)
  {
    k := p;
    while IsBlank(a[k])
      invariant p <= k < a.Length
      invariant ArgRun(Sa(a[..], p, Blanks, argv), max) == ArgRun(Sa(a[..], k, Blanks, argv), max)
      decreases a.Length - k
    {
      assert ArgStep(Sa(a[..], k, Blanks, argv), max) == Some(Sa(a[..], k + 1, Blanks, argv));
      k := k + 1;
    }
  }

  /** The walk over one word: to the next blank (`Plain`) or the closing
      quote (`Quoted`), which becomes a NUL, or to the end of the buffer. */
  method ArgWord(a: array<char>, k: nat, mode: ArgMode, ghost argv: seq<nat>, max: int)
    returns (p: nat, more: bool)
    requires TermFrom(a[..], k) && (mode.Plain? || mode.Quoted?)
    modifies a
    ensures TermFrom(a[..], p) && k <= p
    ensures more ==> k < p && ArgRun(Sa(old(a[..]), k, mode, argv), max) == ArgRun(Sa(a[..], p, Head, argv), max)
    ensures !more ==> ArgRun(Sa(old(a[..]), k, mode, argv), max) == Sa(a[..], p, mode, argv)
  {
    var e := k;
    while a[e] != NUL && (if mode.Plain? then !IsBlank(a[e]) else a[e] != mode.quote)
      invariant k <= e < a.Length
      invariant ArgRun(Sa(a[..], k, mode, argv), max) == ArgRun(Sa(a[..], e, mode, argv), max)
      decreases a.Length - e
    {
      assert ArgStep(Sa(a[..], e, mode, argv), max) == Some(Sa(a[..], e + 1, mode, argv));
      e := e + 1;
    }
    if a[e] == NUL {
      assert ArgStep(Sa(a[..], e, mode, argv), max).None?;
      p, more := e, false;
    } else {
      assert ArgStep(Sa(a[..], e, mode, argv), max) == Some(Sa(a[..][e := NUL], e + 1, Head, argv));
      a[e] := NUL;
      p, more := e + 1, true;
    }
  }

  /** `split_argv`: NUL-terminates each word in place and returns the word
      starts. */
  method SplitArgv(a: array<char>, max: int) returns (argv: seq<nat>)
    requires TermFrom(a[..], 0)
    modifies a
    ensures var r := SplitArgvSpec(old(a[..]), max); a[..] == r.mem && argv == r.argv
  {
    ghost var spec := SplitArgvSpec(a[..], max);
    var p := 0;
    argv := [];
    while a[p] != NUL && |argv| < max
      invariant TermFrom(a[..], p)
      invariant ArgRun(Sa(a[..], p, Head, argv), max) == spec
      decreases a.Length - p
    {
      assert ArgStep(Sa(a[..], p, Head, argv), max) == Some(Sa(a[..], p, Blanks, argv));
      var k := ArgBlanks(a, p, argv, max);
      if a[k] == NUL || |argv| >= max - 1 {
        assert ArgStep(Sa(a[..], k, Blanks, argv), max).None?;
        return;
      }
      var mode, start;
      if IsQuote(a[k]) {
        mode, start := Quoted(a[k]), k + 1;
      } else {
        mode, start := Plain, k;
      }
      assert ArgStep(Sa(a[..], k, Blanks, argv), max) == Some(Sa(a[..], start, mode, argv + [start]));
      argv := argv + [start];
      var more;
      p, more := ArgWord(a, start, mode, argv, max);
      if !more {
        return;
      }
    }
    assert ArgStep(Sa(a[..], p, Head, argv), max).None?;
  }

  // ------------------------------------------------ facts about split_argv

  /** The number of pointers `split_argv` may store before its NULL. */
  function ArgCap(max: int): nat
  {
    if max >= 1 then max - 1 else 0
  }

  lemma {:induction false} ArgRunBound(s: Sa, max: int)
    requires TermFrom(s.mem, s.p) && |s.argv| <= ArgCap(max)
    ensures |ArgRun(s, max).argv| <= ArgCap(max)
    decreases |s.mem| - s.p, ArgRank(s.mode)
  {
    match ArgStep(s, max)
    case None =>
    case Some(s') => ArgRunBound(s', max);
  }

  /** At most `max - 1` words are stored, so `argv[argc]` is in bounds. */
  lemma SplitArgvBound(mem: seq<char>, max: int)
    requires TermFrom(mem, 0)
    ensures |SplitArgvSpec(mem, max).argv| <= ArgCap(max)
  {
    ArgRunBound(Sa(mem, 0, Head, []), max);
  }

  /** The walk writes only at or after its position, keeps the pointers it
      already stored, and every new pointer lies in the buffer after it. */
  lemma {:induction false} ArgRunFacts(s: Sa, max: int)
    requires TermFrom(s.mem, s.p)
    ensures var r := ArgRun(s, max);
      |r.mem| == |s.mem| && TermFrom(r.mem, r.p) && r.mem[..s.p] == s.mem[..s.p] &&
      |s.argv| <= |r.argv| && r.argv[..|s.argv|] == s.argv &&
      forall i :: |s.argv| <= i < |r.argv| ==> s.p <= r.argv[i] < |s.mem|
    decreases |s.mem| - s.p, ArgRank(s.mode)
  {
    match ArgStep(s, max)
    case None =>
    case Some(s') =>
      ArgRunFacts(s', max);
      var r := ArgRun(s', max);
      assert r.mem[..s'.p][..s.p] == r.mem[..s.p];
      assert s'.mem[..s.p] == s.mem[..s.p];
      assert r.argv[..|s'.argv|][..|s.argv|] == r.argv[..|s.argv|];
  }

  /** The C strings at the given offsets. */
  function WordsAt(m: seq<char>, qs: seq<nat>): (ws: seq<seq<char>>)
    requires forall i :: 0 <= i < |qs| ==> TermFrom(m, qs[i])
    ensures |ws| == |qs|
  {
    if qs == [] then [] else [StrAt(m, qs[0])] + WordsAt(m, qs[1..])
  }

  function Take<T>(xs: seq<T>, n: nat): (ys: seq<T>)
    ensures |ys| == if |xs| <= n then |xs| else n
  {
    if |xs| <= n then xs else xs[..n]
  }

  lemma {:induction false} BlanksWalk(s: Sa, k: nat, max: int)
    requires TermFrom(s.mem, s.p) && s.mode.Blanks? && s.p <= k < |s.mem|
    requires forall j :: s.p <= j < k ==> IsBlank(s.mem[j])
    ensures ArgRun(s, max) == ArgRun(s.(p := k), max)
    decreases k - s.p
  {
    if s.p < k {
      assert ArgStep(s, max) == Some(s.(p := s.p + 1));
      BlanksWalk(s.(p := s.p + 1), k, max);
    }
  }

  lemma {:induction false} WordWalk(s: Sa, k: nat, max: int)
    requires TermFrom(s.mem, s.p) && (s.mode.Plain? || s.mode.Quoted?) && s.p <= k < |s.mem|
    requires forall j :: s.p <= j < k ==>
      s.mem[j] != NUL && if s.mode.Plain? then !IsBlank(s.mem[j]) else s.mem[j] != s.mode.quote
    ensures ArgRun(s, max) == ArgRun(s.(p := k), max)
    decreases k - s.p
  {
    if s.p < k {
      assert ArgStep(s, max) == Some(s.(p := s.p + 1));
      WordWalk(s.(p := s.p + 1), k, max);
    }
  }

  const Blank: seq<char> := " \t"

  lemma BlankIsDelim(c: char)
    ensures IsBlank(c) <==> c in Blank
  {
  }

  /** Text at or after `p` of the buffer is `text` followed by its NUL, with
      no NUL and no quote character in it. */
  predicate PlainTail(mem: seq<char>, p: nat, text: seq<char>)
  {
    |mem| == |text| + 1 && p <= |text| && mem[|text|] == NUL &&
    forall j :: p <= j < |text| ==> mem[j] == text[j] && text[j] != NUL && !IsQuote(text[j])
  }

  /** The pointers of `r` from index `from` on name, in the final buffer,
      exactly the strings `expected`. */
  predicate StoresWords(r: Sa, from: nat, expected: seq<seq<char>>)
  {
    from <= |r.argv| &&
    (forall i :: from <= i < |r.argv| ==> TermFrom(r.mem, r.argv[i])) &&
    WordsAt(r.mem, r.argv[from..]) == expected
  }

  lemma StoresNone(r: Sa)
    ensures StoresWords(r, |r.argv|, [])
  {
  }

  lemma StoresCons(r: Sa, from: nat, w: seq<char>, expected: seq<seq<char>>)
    requires StoresWords(r, from + 1, expected)
    requires TermFrom(r.mem, r.argv[from]) && StrAt(r.mem, r.argv[from]) == w
    ensures StoresWords(r, from, [w] + expected)
  {
    assert r.argv[from..][1..] == r.argv[from + 1..];
  }

  /** The word at pointer `n - 1`, cut at `e` in an earlier buffer `m`
      whose bytes up to the cut the final buffer keeps, joins the words
      stored after it. */
  lemma StoresCut(r: Sa, n: nat, k: nat, e: nat, m: seq<char>, expected: seq<seq<char>>)
    requires StoresWords(r, n, expected) && 1 <= n && r.argv[n - 1] == k
    requires TermFrom(r.mem, r.p) && k <= e < |m| <= |r.mem| && m[e] == NUL
    requires r.mem[..e + 1] == m[..e + 1]
    requires forall j :: k <= j < e ==> m[j] != NUL
    ensures StoresWords(r, n - 1, [m[k..e]] + expected)
  {
    StrAtCut(m, r.mem, k, e);
    StoresCons(r, n - 1, m[k..e], expected);
  }

  lemma StoresSame(r1: Sa, r2: Sa, n: nat, e1: seq<seq<char>>, e2: seq<seq<char>>)
    requires r1 == r2 && e1 == e2 && StoresWords(r2, n, e2)
    ensures StoresWords(r1, n, e1)
  {
  }

  lemma TakeCons<T>(x: T, xs: seq<T>, n: nat)
    requires n >= 1
    ensures Take([x] + xs, n) == [x] + Take(xs, n - 1)
  {
    if |xs| > n - 1 {
      assert ([x] + xs)[..n] == [x] + xs[..n - 1];
    }
  }

  /** `strtok` on text with a token starting at `k` that runs to the end. */
  lemma TokensLastWord(text: seq<char>, k: nat)
    requires k < |text| && text[k] !in Blank && Tokens.TokenEnd(text, k, Blank) == |text|
    ensures Tokens.TokensFrom(text, k, Blank) == [text[k..]]
  {
    var e := |text|;
    assert Tokens.SkipDelims(text, k, Blank) == k;
    var w := text[k..e];
    assert Tokens.TokensFrom(text, k, Blank) == [w] + Tokens.TokensFrom(text, e, Blank);
    TokensAtEnd(text, e);
    assert [w] + [] == [w];
    assert w == text[k..];
  }

  /** `strtok` on text with a token starting at `k` that a blank ends. */
  lemma TokensCutWord(text: seq<char>, k: nat)
    requires k < |text| && text[k] !in Blank && Tokens.TokenEnd(text, k, Blank) < |text|
    ensures var e := Tokens.TokenEnd(text, k, Blank);
      Tokens.TokensFrom(text, k, Blank) == [text[k..e]] + Tokens.TokensFrom(text, e + 1, Blank)
  {
    assert Tokens.SkipDelims(text, k, Blank) == k;
  }

  lemma TokensAtEnd(text: seq<char>, p: nat)
    requires p <= |text| && Tokens.SkipDelims(text, p, Blank) == |text|
    ensures Tokens.TokensFrom(text, p, Blank) == []
  {
  }

  lemma TokensAfterBlanks(text: seq<char>, p: nat)
    requires p <= |text|
    ensures Tokens.TokensFrom(text, p, Blank) == Tokens.TokensFrom(text, Tokens.SkipDelims(text, p, Blank), Blank)
  {
    var k := Tokens.SkipDelims(text, p, Blank);
    assert Tokens.SkipDelims(text, k, Blank) == k;
  }

  /** A word cut at `e` reads the same in any later buffer that keeps the
      bytes up to and including the cut. */
  lemma StrAtCut(m: seq<char>, m': seq<char>, k: nat, e: nat)
    requires k <= e < |m| <= |m'| && m[e] == NUL && m'[|m'| - 1] == NUL
    requires m'[..e + 1] == m[..e + 1]
    requires forall j :: k <= j < e ==> m[j] != NUL
    ensures TermFrom(m', k) && StrAt(m', k) == m[k..e]
  {
    assert m'[e] == m[e];
    assert forall j :: k <= j < e ==> m'[j] == m[j];
    assert StrEnd(m', k) == e;
  }

  /** For text without quote characters, the words stored from a loop head
      at `s.p` are the space/tab tokens of the rest of the text, as many as
      fit in the remaining pointers. */
  lemma {:induction false} ArgRunTokens(s: Sa, text: seq<char>, max: int)
    requires max >= 1 && s.mode.Head? && TermFrom(s.mem, s.p) && |s.argv| <= max - 1
    requires PlainTail(s.mem, s.p, text)
    ensures StoresWords(ArgRun(s, max), |s.argv|, Take(Tokens.TokensFrom(text, s.p, Blank), max - 1 - |s.argv|))
    decreases |text| - s.p, 2
  {
    var p := s.p;
    if s.mem[p] == NUL {
      ArgRunAtEnd(s, text, max);
    } else {
      var k := Tokens.SkipDelims(text, p, Blank);
      if k == |text| || |s.argv| >= max - 1 {
        ArgRunStops(s, text, max);
      } else {
        var w := Sa(s.mem, k, Plain, s.argv + [k]);
        ArgRunToWord(s, text, max);
        ArgWordTokens(w, text, max);
      }
    }
  }

  /** At the terminator the loop stops and stores nothing. */
  lemma ArgRunAtEnd(s: Sa, text: seq<char>, max: int)
    requires max >= 1 && s.mode.Head? && TermFrom(s.mem, s.p) && |s.argv| <= max - 1
    requires PlainTail(s.mem, s.p, text) && s.mem[s.p] == NUL
    ensures StoresWords(ArgRun(s, max), |s.argv|, Take(Tokens.TokensFrom(text, s.p, Blank), max - 1 - |s.argv|))
  {
    assert ArgStep(s, max).None?;
    TokensAtEnd(text, s.p);
    StoresNone(s);
  }

  /** Blanks up to the end of the text, or no pointer left: nothing more is
      stored. */
  lemma ArgRunStops(s: Sa, text: seq<char>, max: int)
    requires max >= 1 && s.mode.Head? && TermFrom(s.mem, s.p) && |s.argv| <= max - 1
    requires PlainTail(s.mem, s.p, text) && s.mem[s.p] != NUL
    requires var k := Tokens.SkipDelims(text, s.p, Blank); k == |text| || |s.argv| >= max - 1
    ensures StoresWords(ArgRun(s, max), |s.argv|, Take(Tokens.TokensFrom(text, s.p, Blank), max - 1 - |s.argv|))
  {
    var p := s.p;
    var b := Sa(s.mem, p, Blanks, s.argv);
    assert ArgStep(s, max) == Some(b);
    var k := Tokens.SkipDelims(text, p, Blank);
    BlanksWalk(b, k, max);
    TokensAfterBlanks(text, p);
    assert ArgStep(b.(p := k), max).None?;
    TokensAtEnd(text, |text|);
    StoresNone(b.(p := k));
  }

  /** Blanks up to a word that still has a pointer: the loop records its
      start and walks into it. */
  lemma ArgRunToWord(s: Sa, text: seq<char>, max: int)
    requires max >= 1 && s.mode.Head? && TermFrom(s.mem, s.p) && |s.argv| <= max - 1
    requires PlainTail(s.mem, s.p, text) && s.mem[s.p] != NUL
    requires var k := Tokens.SkipDelims(text, s.p, Blank); k < |text| && |s.argv| < max - 1
    ensures var k := Tokens.SkipDelims(text, s.p, Blank);
      var w := Sa(s.mem, k, Plain, s.argv + [k]);
      TermFrom(w.mem, w.p) && PlainTail(w.mem, k, text) && text[k] !in Blank &&
      ArgRun(s, max) == ArgRun(w, max) &&
      Tokens.TokensFrom(text, s.p, Blank) == Tokens.TokensFrom(text, k, Blank)
  {
    var p := s.p;
    var b := Sa(s.mem, p, Blanks, s.argv);
    assert ArgStep(s, max) == Some(b);
    var k := Tokens.SkipDelims(text, p, Blank);
    BlanksWalk(b, k, max);
    TokensAfterBlanks(text, p);
    assert s.mem[k] == text[k] && !IsBlank(s.mem[k]) && !IsQuote(s.mem[k]);
    var w := Sa(s.mem, k, Plain, s.argv + [k]);
    assert ArgStep(b.(p := k), max) == Some(w);
  }

  /** The unquoted word starting at `s.p` runs to the next space or tab. */
  lemma {:induction false} ArgWordTokens(s: Sa, text: seq<char>, max: int)
    requires max >= 1 && s.mode.Plain? && TermFrom(s.mem, s.p) && 1 <= |s.argv| <= max - 1
    requires PlainTail(s.mem, s.p, text) && s.p < |text| && s.argv[|s.argv| - 1] == s.p
    requires text[s.p] !in Blank
    ensures StoresWords(ArgRun(s, max), |s.argv| - 1, Take(Tokens.TokensFrom(text, s.p, Blank), max - |s.argv|))
    decreases |text| - s.p, 1
  {
    if Tokens.TokenEnd(text, s.p, Blank) == |text| {
      WordToEnd(s, text, max);
    } else {
      WordToCut(s, text, max);
    }
  }

  lemma WordToEnd(s: Sa, text: seq<char>, max: int)
    requires max >= 1 && s.mode.Plain? && TermFrom(s.mem, s.p) && 1 <= |s.argv| <= max - 1
    requires PlainTail(s.mem, s.p, text) && s.p < |text| && s.argv[|s.argv| - 1] == s.p
    requires text[s.p] !in Blank && Tokens.TokenEnd(text, s.p, Blank) == |text|
    ensures StoresWords(ArgRun(s, max), |s.argv| - 1, Take(Tokens.TokensFrom(text, s.p, Blank), max - |s.argv|))
  {
    var e := |text|;
    WordWalk(s, e, max);
    TokensLastWord(text, s.p);
    assert ArgStep(s.(p := e), max).None?;
    var r := s.(p := e);
    StrAtCut(s.mem, s.mem, s.p, e);
    StoresNone(r);
    StoresCons(r, |s.argv| - 1, text[s.p..e], []);
    StoresSame(ArgRun(s, max), r, |s.argv| - 1,
      Take(Tokens.TokensFrom(text, s.p, Blank), max - |s.argv|), [text[s.p..e]] + []);
  }

  lemma {:induction false} WordToCut(s: Sa, text: seq<char>, max: int)
    requires max >= 1 && s.mode.Plain? && TermFrom(s.mem, s.p) && 1 <= |s.argv| <= max - 1
    requires PlainTail(s.mem, s.p, text) && s.p < |text| && s.argv[|s.argv| - 1] == s.p
    requires text[s.p] !in Blank && Tokens.TokenEnd(text, s.p, Blank) < |text|
    ensures StoresWords(ArgRun(s, max), |s.argv| - 1, Take(Tokens.TokensFrom(text, s.p, Blank), max - |s.argv|))
    decreases |text| - s.p, 0
  {
    var k, n := s.p, |s.argv|;
    var e := Tokens.TokenEnd(text, k, Blank);
    var h := Sa(s.mem[e := NUL], e + 1, Head, s.argv);
    CutStep(s, e, max);
    CutTail(s.mem, k, e, text);
    AfterCut(h, text, max, k);
    var want := [text[k..e]] + Take(Tokens.TokensFrom(text, e + 1, Blank), max - 1 - n);
    assert h.p - 1 == e && |h.argv| == n;
    assert StoresWords(ArgRun(h, max), n - 1, want);
    TakeCutWord(text, k, max - n);
    StoresSame(ArgRun(s, max), ArgRun(h, max), n - 1, Take(Tokens.TokensFrom(text, k, Blank), max - n), want);
  }

  /** The first `m` words from an unquoted word cut at `e`: that word, then
      `m - 1` words from after the cut. */
  lemma TakeCutWord(text: seq<char>, k: nat, m: int)
    requires k < |text| && text[k] !in Blank && Tokens.TokenEnd(text, k, Blank) < |text| && m >= 1
    ensures var e := Tokens.TokenEnd(text, k, Blank);
      Take(Tokens.TokensFrom(text, k, Blank), m) == [text[k..e]] + Take(Tokens.TokensFrom(text, e + 1, Blank), m - 1)
  {
    var e := Tokens.TokenEnd(text, k, Blank);
    TokensCutWord(text, k);
    TakeCons(text[k..e], Tokens.TokensFrom(text, e + 1, Blank), m);
  }

  /** The walk over an unquoted word up to the blank at `e`, which it cuts. */
  lemma CutStep(s: Sa, e: nat, max: int)
    requires TermFrom(s.mem, s.p) && s.mode.Plain? && s.p <= e < |s.mem| && IsBlank(s.mem[e])
    requires forall j :: s.p <= j < e ==> s.mem[j] != NUL && !IsBlank(s.mem[j])
    ensures TermFrom(s.mem[e := NUL], e + 1)
    ensures ArgRun(s, max) == ArgRun(Sa(s.mem[e := NUL], e + 1, Head, s.argv), max)
  {
    WordWalk(s, e, max);
    assert ArgStep(s.(p := e), max) == Some(Sa(s.mem[e := NUL], e + 1, Head, s.argv));
  }

  lemma CutTail(mem: seq<char>, k: nat, e: nat, text: seq<char>)
    requires PlainTail(mem, k, text) && k <= e < |text|
    ensures PlainTail(mem[e := NUL], e + 1, text)
    ensures forall j :: k <= j < e ==> mem[e := NUL][j] == text[j] && text[j] != NUL
  {
  }

  /** Resuming after the blank that ends the word at `k`. */
  lemma {:induction false} AfterCut(h: Sa, text: seq<char>, max: int, k: nat)
    requires max >= 1 && h.mode.Head? && 1 <= |h.argv| <= max - 1 && h.argv[|h.argv| - 1] == k
    requires 1 <= h.p && k < h.p && TermFrom(h.mem, h.p) && PlainTail(h.mem, h.p, text)
    requires h.mem[h.p - 1] == NUL && forall j :: k <= j < h.p - 1 ==> h.mem[j] == text[j] && text[j] != NUL
    ensures StoresWords(ArgRun(h, max), |h.argv| - 1,
      [text[k..h.p - 1]] + Take(Tokens.TokensFrom(text, h.p, Blank), max - 1 - |h.argv|))
    decreases |text| - h.p, 3
  {
    var e := h.p - 1;
    ArgRunTokens(h, text, max);
    ArgRunFacts(h, max);
    assert h.mem[k..e] == text[k..e];
    StoresCut(ArgRun(h, max), |h.argv|, k, e, h.mem, Take(Tokens.TokensFrom(text, h.p, Blank), max - 1 - |h.argv|));
  }

  /** `split_argv` on quote-free text stores its first `max - 1` space/tab
      tokens, which is what `strtok(cmd, " \t")` would return. */
  lemma SplitArgvTokens(text: seq<char>, max: int)
    requires max >= 1
    requires forall j :: 0 <= j < |text| ==> text[j] != NUL && !IsQuote(text[j])
    ensures StoresWords(SplitArgvSpec(text + [NUL], max), 0, Take(Tokens.Tokens(text, Blank), max - 1))
  {
    ArgRunTokens(Sa(text + [NUL], 0, Head, []), text, max);
  }

  /** The walk to the end of a quoted first word. */
  lemma QuotedWordRun(mem: seq<char>, max: int, k: nat, e: nat)
    requires TermFrom(mem, 0) && max >= 2 && k < e < |mem|
    requires forall j :: 0 <= j < k ==> IsBlank(mem[j])
    requires IsQuote(mem[k]) && (mem[e] == mem[k] || mem[e] == NUL)
    requires forall j :: k < j < e ==> mem[j] != NUL && mem[j] != mem[k]
    ensures SplitArgvSpec(mem, max) == ArgRun(Sa(mem, e, Quoted(mem[k]), [k + 1]), max)
  {
    var s0 := Sa(mem, 0, Head, []);
    assert mem[0] != NUL;
    var b := Sa(mem, 0, Blanks, []);
    assert ArgStep(s0, max) == Some(b);
    BlanksWalk(b, k, max);
    var w := Sa(mem, k + 1, Quoted(mem[k]), [k + 1]);
    assert [] + [k + 1] == [k + 1];
    assert ArgStep(b.(p := k), max) == Some(w);
    WordWalk(w, e, max);
  }

  /** A word opened by `'` or `"` starts after the quote and runs to the
      next identical quote, which becomes its NUL, or to the end of the
      string when the quote is never closed; the quotes are not part of it. */
  lemma SplitArgvQuoted(mem: seq<char>, max: int, k: nat, e: nat)
    requires TermFrom(mem, 0) && max >= 2 && k < e < |mem|
    requires forall j :: 0 <= j < k ==> IsBlank(mem[j])
    requires IsQuote(mem[k]) && (mem[e] == mem[k] || mem[e] == NUL)
    requires forall j :: k < j < e ==> mem[j] != NUL && mem[j] != mem[k]
    ensures var r := SplitArgvSpec(mem, max);
      |r.argv| >= 1 && r.argv[0] == k + 1 && TermFrom(r.mem, k + 1) && StrAt(r.mem, k + 1) == mem[k + 1..e]
  {
    var w := Sa(mem, k + 1, Quoted(mem[k]), [k + 1]);
    QuotedWordRun(mem, max, k, e);
    if mem[e] == NUL {
      assert ArgStep(w.(p := e), max).None?;
      StrAtCut(mem, mem, k + 1, e);
    } else {
      var h := Sa(mem[e := NUL], e + 1, Head, [k + 1]);
      assert ArgStep(w.(p := e), max) == Some(h);
      ArgRunFacts(h, max);
      var r := ArgRun(h, max);
      assert r.argv[..1] == [k + 1];
      StrAtCut(h.mem, r.mem, k + 1, e);
      assert h.mem[k + 1..e] == mem[k + 1..e];
    }
  }

  /** A command whose first byte is neither NUL nor blank (as `trim` leaves
      it) yields at least one word, so `argv[0]` is a string. */
  lemma SplitArgvFirst(mem: seq<char>, max: int)
    requires TermFrom(mem, 0) && mem[0] != NUL && !IsBlank(mem[0]) && max >= 2
    ensures var r := SplitArgvSpec(mem, max);
      |r.argv| >= 1 && r.argv[0] == (if IsQuote(mem[0]) then 1 else 0)
  {
    var s0 := Sa(mem, 0, Head, []);
    var b := Sa(mem, 0, Blanks, []);
    assert ArgStep(s0, max) == Some(b);
    var start := if IsQuote(mem[0]) then 1 else 0;
    var w := Sa(mem, start, if IsQuote(mem[0]) then Quoted(mem[0]) else Plain, [start]);
    assert [] + [start] == [start];
    assert ArgStep(b, max) == Some(w);
    assert ArgRun(s0, max) == ArgRun(b, max) == ArgRun(w, max);
    ArgRunFacts(w, max);
    assert ArgRun(w, max).argv[..1] == [start];
  }
}
