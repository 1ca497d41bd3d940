/** The line front-end of src/runner.c: `norm_and_and`, which turns every
    `&&` into `;`, and `run_sequence`, which cuts the normalised line at
    every `;` and `&` and hands each segment either to a built-in or to
    `execute_command`.

    The calls `run_sequence` makes are reported as a list of actions: the
    built-in with its word-split arguments, or the text handed to
    `execute_command` with its foreground flag. What a built-in does is
    modelled in module Builtins, what `execute_command` does in module
    Execute. */
module Runner {
  import opened Wrappers
  import opened CStrings
  import opened CommandText
  import Tokens
  import Builtins

  // ------------------------------------------------------- norm_and_and

  /** `&&` at position `i` of `s`. */
  predicate AndAndAt(s: seq<char>, i: int)
  {
    0 <= i && i + 1 < |s| && s[i] == '&' && s[i + 1] == '&'
  }

  ghost predicate HasAndAnd(s: seq<char>)
  {
    exists i :: AndAndAt(s, i)
  }

  /** Reference definition: the line with every `&&`, taken left to right
      without overlap, replaced by one `;`, and every other byte kept. */
  function Norm(s: seq<char>): seq<char>
    decreases |s|
  {
    if s == [] then []
    else if AndAndAt(s, 0) then [';'] + Norm(s[2..])
    else [s[0]] + Norm(s[1..])
  }

  /** The first output byte: `;` for a leading `&&`, else the first input
      byte. */
  lemma NormHead(s: seq<char>)
    requires s != []
    ensures Norm(s) != [] && Norm(s)[0] == (if AndAndAt(s, 0) then ';' else s[0])
  {
  }

  /** Normalising never produces `&&`: a `&` is only copied when the next
      input byte is not a `&`, and that byte is copied next. */
  lemma {:induction false} NormHasNoAndAnd(s: seq<char>)
    ensures !HasAndAnd(Norm(s))
    decreases |s|
  {
    if s != [] {
      var rest := if AndAndAt(s, 0) then s[2..] else s[1..];
      NormHasNoAndAnd(rest);
      NoAndAndAtFront(s);
      NoAndAndAfterFront(s);
    }
  }

  /** The first two output bytes are never `&&`. */
  lemma NoAndAndAtFront(s: seq<char>)
    requires s != []
    ensures !AndAndAt(Norm(s), 0)
  {
    var rest := if AndAndAt(s, 0) then s[2..] else s[1..];
    var r := Norm(s);
    assert r == [r[0]] + Norm(rest);
    if AndAndAt(r, 0) {
      assert !AndAndAt(s, 0) && s[0] == '&';
      NormHead(rest);
      assert false;
    }
  }

  /** Past the first output byte, a `&&` would be one in the output for
      the rest of the line. */
  lemma NoAndAndAfterFront(s: seq<char>)
    requires s != []
    requires !HasAndAnd(Norm(if AndAndAt(s, 0) then s[2..] else s[1..]))
    ensures forall i :: 0 < i ==> !AndAndAt(Norm(s), i)
  {
    var rest := if AndAndAt(s, 0) then s[2..] else s[1..];
    var r := Norm(s);
    assert r == [r[0]] + Norm(rest);
    forall i | 0 < i
      ensures !AndAndAt(r, i)
    {
      if AndAndAt(r, i) {
        assert AndAndAt(Norm(rest), i - 1);
      }
    }
  }

  /** A `&&` in the tail of a line is a `&&` of the line. */
  lemma AndAndInTail(s: seq<char>)
    requires s != []
    ensures HasAndAnd(s[1..]) ==> HasAndAnd(s)
  {
    if HasAndAnd(s[1..]) {
      var i :| AndAndAt(s[1..], i);
      assert AndAndAt(s, i + 1);
    }
  }

  /** A line without `&&` is left as it is. */
  lemma {:induction false} NormWithoutAndAnd(s: seq<char>)
    requires !HasAndAnd(s)
    ensures Norm(s) == s
    decreases |s|
  {
    if s != [] {
      assert !AndAndAt(s, 0);
      AndAndInTail(s);
      NormWithoutAndAnd(s[1..]);
      assert s == [s[0]] + s[1..];
    }
  }

  /** Normalising is idempotent. */
  lemma NormIdempotent(s: seq<char>)
    ensures Norm(Norm(s)) == Norm(s)
  {
    NormHasNoAndAnd(s);
    NormWithoutAndAnd(Norm(s));
  }

  /** A prefix of a line without `&&` has none either. */
  lemma PrefixHasNoAndAnd(s: seq<char>, n: nat)
    requires !HasAndAnd(s) && n <= |s|
    ensures !HasAndAnd(s[..n])
  {
    forall i ensures AndAndAt(s[..n], i) ==> AndAndAt(s, i) {
    }
  }

  /** The output of `norm_and_and` into a buffer of `sz` bytes: at most
      `sz - 1` bytes of the normalised line. */
  function NormOut(s: seq<char>, sz: nat): (r: seq<char>)
    requires sz >= 1
    ensures |r| < sz && r <= Norm(s)
  {
    Trunc(Norm(s), sz - 1)
  }

  /** Normalising an already normalised line into a buffer at least as
      large gives it back unchanged. */
  lemma NormOutFixed(s: seq<char>, sz: nat, sz': nat)
    requires 1 <= sz <= sz'
    ensures NormOut(NormOut(s, sz), sz') == NormOut(s, sz)
  {
    NormHasNoAndAnd(s);
    PrefixHasNoAndAnd(Norm(s), |NormOut(s, sz)|);
    assert NormOut(s, sz) == Norm(s)[..|NormOut(s, sz)|];
    NormWithoutAndAnd(NormOut(s, sz));
  }

  /** A `&&` that is not preceded by an unpaired `&` becomes exactly one
      `;` between the normalised text around it. */
  lemma {:induction false} NormSplits(a: seq<char>, b: seq<char>)
    requires !HasAndAnd(a) && (a == [] || a[|a| - 1] != '&')
    ensures Norm(a + "&&" + b) == Norm(a) + ";" + Norm(b)
    decreases |a|
  {
    if a == [] {
      assert a + "&&" + b == "&&" + b;
      assert ("&&" + b)[2..] == b;
    } else {
      var s := a + "&&" + b;
      assert !AndAndAt(s, 0) && !AndAndAt(a, 0) by {
        if |a| >= 2 { assert !AndAndAt(a, 0); }
      }
      AndAndInTail(a);
      NormSplits(a[1..], b);
      assert s[1..] == a[1..] + "&&" + b;
      assert Norm(s) == [a[0]] + Norm(s[1..]);
      assert Norm(a) == [a[0]] + Norm(a[1..]);
      assert [a[0]] + (Norm(a[1..]) + ";" + Norm(b)) == ([a[0]] + Norm(a[1..])) + ";" + Norm(b);
    }
  }

  /** Unfolding `Norm` at position `i` of `s`. */
  lemma NormAt(s: seq<char>, i: nat)
    requires i < |s|
    ensures Norm(s[i..]) ==
      if AndAndAt(s, i) then [';'] + Norm(s[i + 2..]) else [s[i]] + Norm(s[i + 1..])
  {
    assert AndAndAt(s[i..], 0) == AndAndAt(s, i);
    assert s[i..][1..] == s[i + 1..];
    if AndAndAt(s, i) {
      assert s[i..][2..] == s[i + 2..];
    }
  }

  /** norm_and_and: copies the line into `out` (of `out.Length` bytes),
      writing one `;` for each `&&` and stopping when only the byte for
      the terminator is left. The bytes after the terminator are not
      touched. */
  method NormAndAnd(line: seq<char>, out: array<char>)
    requires NUL !in line && out.Length >= 1
    modifies out
    ensures var r := NormOut(line, out.Length);
      out[..|r|] == r && out[|r|] == NUL && out[|r| + 1..] == old(out[|r| + 1..])
  {
    var i, j := 0, 0;
    ghost var done: seq<char> := [];
    while i < |line| && j + 1 < out.Length
      invariant 0 <= i <= |line| && j == |done| < out.Length
      invariant done + Norm(line[i..]) == Norm(line)
      invariant out[..j] == done
      invariant forall k :: j <= k < out.Length ==> out[k] == old(out[k])
      decreases |line| - i
    {
      NormAt(line, i);
      ghost var rest := Norm(line[i..]);
      var c := line[i];
      if line[i] == '&' && i + 1 < |line| && line[i + 1] == '&' {
        c := ';';
        i := i + 1;
      }
      out[j] := c;
      assert rest == [c] + Norm(line[i + 1..]);
      assert (done + [c]) + Norm(line[i + 1..]) == done + rest;
      done := done + [c];
      i, j := i + 1, j + 1;
    }
    assert done <= Norm(line);
    out[j] := NUL;
    assert out[..j] == done == NormOut(line, out.Length);
  }
  // ------------------------------------------------------ segment split

  /** buf[2048] holds at most 2047 bytes of the line. */
  const LineBytes: nat := 2047
  /** cmd[128] and bg[128]: one entry per segment, with no bound check. */
  const MaxSegments: nat := 128

  predicate IsSep(c: char) { c == ';' || c == '&' }

  predicate NoSep(s: seq<char>)
  {
    forall k :: 0 <= k < |s| ==> !IsSep(s[k])
  }

  /** Reference definition of the split: the runs of `s` between
      separators, in order, the last one possibly empty. */
  function Segments(s: seq<char>): (r: seq<seq<char>>)
    ensures |r| >= 1
    decreases |s|
  {
    if s == [] then [[]]
    else
      var init := Segments(s[..|s| - 1]);
      var c := s[|s| - 1];
      if IsSep(c) then init + [[]]
      else init[..|init| - 1] + [init[|init| - 1] + [c]]
  }

  /** The separators of `s`, in order. */
  function Seps(s: seq<char>): (r: seq<char>)
    ensures |r| <= |s|
    decreases |s|
  {
    if s == [] then []
    else Seps(s[..|s| - 1]) + (if IsSep(s[|s| - 1]) then [s[|s| - 1]] else [])
  }

  /** The segments with the separators between them again. */
  function Weave(segs: seq<seq<char>>, seps: seq<char>): seq<char>
    requires |segs| == |seps| + 1
    decreases |seps|
  {
    if seps == [] then segs[0]
    else Weave(segs[..|segs| - 1], seps[..|seps| - 1]) + [seps[|seps| - 1]] + segs[|segs| - 1]
  }

  /** One segment more than separators; no segment holds a separator. */
  lemma {:induction false} SegmentsShape(s: seq<char>)
    ensures |Segments(s)| == |Seps(s)| + 1
    ensures forall k :: 0 <= k < |Segments(s)| ==> NoSep(Segments(s)[k])
    ensures forall k :: 0 <= k < |Seps(s)| ==> IsSep(Seps(s)[k])
    decreases |s|
  {
    if s != [] {
      SegmentsShape(s[..|s| - 1]);
    }
  }

  /** Cutting at the separators and weaving them back in gives the line. */
  lemma {:induction false} WeaveSegments(s: seq<char>)
    ensures |Segments(s)| == |Seps(s)| + 1 && Weave(Segments(s), Seps(s)) == s
    decreases |s|
  {
    SegmentsShape(s);
    if s != [] {
      var t, c := s[..|s| - 1], s[|s| - 1];
      WeaveSegments(t);
      SegmentsShape(t);
      var r, q := Segments(t), Seps(t);
      assert s == t + [c];
      if IsSep(c) {
        assert Segments(s) == r + [[]] && Seps(s) == q + [c];
        WeaveSep(r, q, c);
      } else {
        assert Segments(s) == r[..|r| - 1] + [r[|r| - 1] + [c]] && Seps(s) == q;
        WeaveGrow(r, q, c);
      }
    }
  }

  lemma WeaveSep(r: seq<seq<char>>, q: seq<char>, c: char)
    requires |r| == |q| + 1
    ensures Weave(r + [[]], q + [c]) == Weave(r, q) + [c]
  {
    assert (r + [[]])[..|r|] == r && (q + [c])[..|q|] == q;
  }

  lemma WeaveGrow(r: seq<seq<char>>, q: seq<char>, c: char)
    requires |r| == |q| + 1
    ensures Weave(r[..|r| - 1] + [r[|r| - 1] + [c]], q) == Weave(r, q) + [c]
  {
    var r' := r[..|r| - 1] + [r[|r| - 1] + [c]];
    if q != [] {
      assert r'[..|r'| - 1] == r[..|r| - 1];
    }
  }

  /** Appending separator-free text extends the last segment. */
  lemma {:induction false} SegmentsAppend(s: seq<char>, t: seq<char>)
    requires NoSep(t)
    ensures var r := Segments(s);
      Segments(s + t) == r[..|r| - 1] + [r[|r| - 1] + t] && Seps(s + t) == Seps(s)
    decreases |t|
  {
    var r := Segments(s);
    if t == [] {
      assert s + t == s && r[|r| - 1] + t == r[|r| - 1];
      assert r == r[..|r| - 1] + [r[|r| - 1]];
    } else {
      var t', c := t[..|t| - 1], t[|t| - 1];
      assert NoSep(t');
      SegmentsAppend(s, t');
      SnocParts(s, t);
      SegmentsPlain(s + t', c);
      GrowLast(r, Segments(s + t'), t', c);
    }
  }

  lemma SnocParts(s: seq<char>, t: seq<char>)
    requires t != []
    ensures s + t == (s + t[..|t| - 1]) + [t[|t| - 1]] && t == t[..|t| - 1] + [t[|t| - 1]]
  {
  }

  lemma SegmentsPlain(w: seq<char>, c: char)
    requires !IsSep(c)
    ensures var r := Segments(w);
      Segments(w + [c]) == r[..|r| - 1] + [r[|r| - 1] + [c]] && Seps(w + [c]) == Seps(w)
  {
    assert (w + [c])[..|w|] == w;
  }

  lemma GrowLast(r: seq<seq<char>>, init: seq<seq<char>>, t: seq<char>, c: char)
    requires |r| >= 1 && init == r[..|r| - 1] + [r[|r| - 1] + t]
    ensures init[..|init| - 1] + [init[|init| - 1] + [c]] == r[..|r| - 1] + [r[|r| - 1] + (t + [c])]
  {
    assert init[..|init| - 1] == r[..|r| - 1];
    assert init[|init| - 1] + [c] == r[|r| - 1] + (t + [c]);
  }

  /** Separator-free segments woven with separators are cut back into the
      same segments and separators. */
  lemma {:induction false} SegmentsOfWeave(segs: seq<seq<char>>, seps: seq<char>)
    requires |segs| == |seps| + 1
    requires forall k :: 0 <= k < |segs| ==> NoSep(segs[k])
    requires forall k :: 0 <= k < |seps| ==> IsSep(seps[k])
    ensures Segments(Weave(segs, seps)) == segs && Seps(Weave(segs, seps)) == seps
    decreases |seps|
  {
    var last := segs[|segs| - 1];
    if seps == [] {
      SegmentsAppend([], last);
      assert [] + last == last;
      assert Segments([]) == [[]] && Seps([]) == [];
      assert segs == [last];
    } else {
      var init, q, c := segs[..|segs| - 1], seps[..|seps| - 1], seps[|seps| - 1];
      SegmentsOfWeave(init, q);
      var w := Weave(init, q);
      SegmentsSep(w, c);
      SegmentsAppend(w + [c], last);
      assert Weave(segs, seps) == w + [c] + last;
      assert (init + [[]])[..|init|] == init;
      assert segs == init + [last] && seps == q + [c];
    }
  }

  lemma SegmentsSep(w: seq<char>, c: char)
    requires IsSep(c)
    ensures Segments(w + [c]) == Segments(w) + [[]] && Seps(w + [c]) == Seps(w) + [c]
  {
    assert (w + [c])[..|w|] == w;
  }

  /** The C string at `p` ends at the first NUL. */
  lemma {:induction false} StrEndAt(m: seq<char>, p: nat, e: nat)
    requires p <= e < |m| && m[e] == NUL && m[|m| - 1] == NUL
    requires forall k :: p <= k < e ==> m[k] != NUL
    ensures TermFrom(m, p) && StrEnd(m, p) == e
    decreases e - p
  {
    if p < e {
      StrEndAt(m, p + 1, e);
    }
  }

  /** Extending a line by one byte extends its split by one step. */
  lemma SegmentsSnoc(s: seq<char>, i: nat)
    requires i < |s|
    ensures var r := Segments(s[..i]);
      Segments(s[..i + 1]) ==
        if IsSep(s[i]) then r + [[]] else r[..|r| - 1] + [r[|r| - 1] + [s[i]]]
    ensures Seps(s[..i + 1]) == Seps(s[..i]) + (if IsSep(s[i]) then [s[i]] else [])
  {
    assert s[..i + 1][..i] == s[..i];
  }

  /** The first loop of `run_sequence` after `i` bytes of `orig`: the
      segments closed so far run from `starts[k]` to the separator at
      `ends[k]`, and the open one runs from `st` to `i`. */
  ghost predicate SplitSoFar(orig: seq<char>, i: nat, st: nat, starts: seq<nat>, ends: seq<nat>)
  {
    i <= |orig| && SplitAt(orig, Segments(orig[..i]), |Seps(orig[..i])|, i, st, starts, ends)
  }

  /** `SplitSoFar` with the segments and the separator count as values. */
  ghost predicate SplitAt(orig: seq<char>, r: seq<seq<char>>, nseps: nat, i: nat, st: nat, starts: seq<nat>, ends: seq<nat>)
  {
    st <= i <= |orig| && |starts| == |ends| == nseps && |r| == |starts| + 1 &&
    (forall k :: 0 <= k < |starts| ==>
      starts[k] <= ends[k] < st && IsSep(orig[ends[k]]) && r[k] == orig[starts[k]..ends[k]]) &&
    r[|starts|] == orig[st..i]
  }

  lemma SplitSepStep(orig: seq<char>, i: nat, st: nat, starts: seq<nat>, ends: seq<nat>)
    requires SplitSoFar(orig, i, st, starts, ends) && i < |orig| && IsSep(orig[i])
    ensures SplitSoFar(orig, i + 1, i + 1, starts + [st], ends + [i])
  {
    SegmentsSnoc(orig, i);
    SepAt(orig, Segments(orig[..i]), Segments(orig[..i + 1]), |Seps(orig[..i])|, i, st, starts, ends);
  }

  lemma SepAt(orig: seq<char>, r: seq<seq<char>>, r': seq<seq<char>>, nseps: nat, i: nat, st: nat,
              starts: seq<nat>, ends: seq<nat>)
    requires SplitAt(orig, r, nseps, i, st, starts, ends) && i < |orig| && IsSep(orig[i]) && r' == r + [[]]
    ensures SplitAt(orig, r', nseps + 1, i + 1, i + 1, starts + [st], ends + [i])
  {
    var ss, es := starts + [st], ends + [i];
    forall k | 0 <= k < |ss|
      ensures ss[k] <= es[k] < i + 1 && IsSep(orig[es[k]]) && r'[k] == orig[ss[k]..es[k]]
    {
      if k < |starts| {
        assert ss[k] == starts[k] && es[k] == ends[k] && r'[k] == r[k];
      } else {
        assert ss[k] == st && es[k] == i && r'[k] == r[|starts|];
      }
    }
    assert r'[|ss|] == [] == orig[i + 1..i + 1];
  }

  lemma SplitPlainStep(orig: seq<char>, i: nat, st: nat, starts: seq<nat>, ends: seq<nat>)
    requires SplitSoFar(orig, i, st, starts, ends) && i < |orig| && !IsSep(orig[i])
    ensures SplitSoFar(orig, i + 1, st, starts, ends)
  {
    SegmentsSnoc(orig, i);
    PlainAt(orig, Segments(orig[..i]), Segments(orig[..i + 1]), |Seps(orig[..i])|, i, st, starts, ends);
  }

  lemma PlainAt(orig: seq<char>, r: seq<seq<char>>, r': seq<seq<char>>, nseps: nat, i: nat, st: nat,
                starts: seq<nat>, ends: seq<nat>)
    requires SplitAt(orig, r, nseps, i, st, starts, ends) && i < |orig| && !IsSep(orig[i])
    requires |r| > 0 && r' == r[..|r| - 1] + [r[|r| - 1] + [orig[i]]]
    ensures SplitAt(orig, r', nseps, i + 1, st, starts, ends)
  {
    assert r[|starts|] + [orig[i]] == orig[st..i + 1];
    forall k | 0 <= k < |starts|
      ensures r'[k] == r[k]
    {
    }
  }

  /** After the scan, each recorded start reads, through the NULs written
      over the separators, as its segment. */
  lemma SplitDone(orig: seq<char>, m: seq<char>, n: nat, st: nat, starts: seq<nat>, ends: seq<nat>)
    requires SplitSoFar(orig, n, st, starts, ends)
    requires n < |orig| && orig[n] == NUL && orig[|orig| - 1] == NUL
    requires forall k :: 0 <= k < n ==> orig[k] != NUL
    requires CutUpTo(m, orig, n)
    ensures forall k :: 0 <= k < |starts| + 1 ==>
      TermFrom(m, (starts + [st])[k]) && StrAt(m, (starts + [st])[k]) == Segments(orig[..n])[k]
  {
    SegmentsShape(orig[..n]);
    var ss, es := starts + [st], ends + [n];
    forall k | 0 <= k < |ss|
      ensures TermFrom(m, ss[k]) && StrAt(m, ss[k]) == Segments(orig[..n])[k]
    {
      var seg := Segments(orig[..n])[k];
      assert seg == orig[ss[k]..es[k]] && es[k] <= n;
      assert NoSep(seg);
      forall j | ss[k] <= j < es[k] ensures m[j] == orig[j] && m[j] != NUL {
        assert orig[j] == seg[j - ss[k]];
      }
      StrEndAt(m, ss[k], es[k]);
      assert m[ss[k]..es[k]] == seg;
    }
  }

  /** `m` is `orig` with the separators among its first `i` bytes turned
      into NULs. */
  ghost predicate CutUpTo(m: seq<char>, orig: seq<char>, i: nat)
  {
    |m| == |orig| && i <= |m| &&
    (forall k :: 0 <= k < i ==> m[k] == if IsSep(orig[k]) then NUL else orig[k]) &&
    (forall k :: i <= k < |m| ==> m[k] == orig[k])
  }

  lemma CutStep(m: seq<char>, orig: seq<char>, i: nat)
    requires CutUpTo(m, orig, i) && i < |m|
    ensures CutUpTo(m[i := if IsSep(orig[i]) then NUL else orig[i]], orig, i + 1)
  {
  }

  /** The scan of `run_sequence`'s first loop over `buf[0..n)`: every
      separator becomes a NUL and ends a segment, whose start is recorded
      with its bg flag; the rest of the line is the last segment. The bg
      flag is read after the NUL is written, so it is never set. */
  method SplitLine(buf: array<char>, n: nat) returns (starts: seq<nat>, bg: seq<bool>)
    requires n < buf.Length && buf[n] == NUL && buf[buf.Length - 1] == NUL
    requires forall k :: 0 <= k < n ==> buf[k] != NUL
    requires |Seps(buf[..n])| < MaxSegments
    modifies buf
    ensures CutUpTo(buf[..], old(buf[..]), n)
    ensures |starts| == |bg| == |Segments(old(buf[..n]))| <= MaxSegments
    ensures forall k :: 0 <= k < |bg| ==> !bg[k]
    ensures forall k :: 0 <= k < |starts| ==>
      TermFrom(buf[..], starts[k]) && StrAt(buf[..], starts[k]) == Segments(old(buf[..n]))[k]
  {
    ghost var orig := buf[..];
    var st;
    ghost var ends;
    starts, bg, st, ends := ScanSeparators(buf, n);
    SplitDone(orig, buf[..], n, st, starts, ends);
    assert orig[..n] == old(buf[..n]);
    SegmentsShape(orig[..n]);
    SeparatorBound(orig, n);
    if st <= n {
      starts := starts + [st];
      bg := bg + [false];
    }
  }

  /** The loop itself: the starts of the closed segments, their bg flags,
      and the start of the open one. */
  method ScanSeparators(buf: array<char>, n: nat) returns (starts: seq<nat>, bg: seq<bool>, st: nat, ghost ends: seq<nat>)
    requires n < buf.Length
    modifies buf
    ensures CutUpTo(buf[..], old(buf[..]), n) && SplitSoFar(old(buf[..]), n, st, starts, ends)
    ensures |bg| == |starts| && forall k :: 0 <= k < |bg| ==> !bg[k]
  {
    ghost var orig := buf[..];
    ends := [];
    starts, bg := [], [];
    st := 0;
    var i := 0;
    while i < n
      invariant i <= n && SplitSoFar(orig, i, st, starts, ends) && |bg| == |starts|
      invariant CutUpTo(buf[..], orig, i)
      invariant forall k :: 0 <= k < |bg| ==> !bg[k]
    {
      CutStep(buf[..], orig, i);
      if buf[i] == ';' || buf[i] == '&' {
        SplitSepStep(orig, i, st, starts, ends);
        buf[i] := NUL;
        starts := starts + [st];
        ends := ends + [i];
        st := i + 1;
        bg := bg + [buf[i] == '&'];
      } else {
        SplitPlainStep(orig, i, st, starts, ends);
        assert buf[..][i := orig[i]] == buf[..];
      }
      i := i + 1;
    }
  }

  /** The separators in a prefix are at most those of the whole. */
  lemma SeparatorBound(s: seq<char>, n: nat)
    requires n <= |s|
    ensures forall i :: 0 <= i <= n ==> |Seps(s[..i])| <= |Seps(s[..n])|
  {
    forall i | 0 <= i <= n ensures |Seps(s[..i])| <= |Seps(s[..n])| {
      SepsGrow(s, i, n);
    }
  }

  lemma {:induction false} SepsGrow(s: seq<char>, i: nat, n: nat)
    requires i <= n <= |s|
    ensures |Seps(s[..i])| <= |Seps(s[..n])|
    decreases n - i
  {
    if i < n {
      SepsSnoc(s, i);
      SepsGrow(s, i + 1, n);
    }
  }

  lemma SepsSnoc(s: seq<char>, i: nat)
    requires i < |s|
    ensures |Seps(s[..i])| <= |Seps(s[..i + 1])|
  {
    assert s[..i + 1][..i] == s[..i];
  }
  // ---------------------------------------------------------- dispatch

  /** temp[1024], name[1024] and execbuf[1024] keep at most 1023 bytes. */
  const SegmentBytes: nat := 1023
  /** split_words stores at most 64 words. */
  const MaxWords: nat := 64
  /** The delimiters of split_words and of the first-word cut. */
  const WordDelims: seq<char> := " \t"
  const FirstWordDelims: seq<char> := " \t|&><;"

  /** What `run_sequence` does with one segment: run a built-in in the
      shell with the segment's words, or hand the text to
      `execute_command` with a foreground flag. */
  datatype Action = RunBuiltin(builtin: Builtins.Builtin, args: seq<seq<char>>) | Execute(text: seq<char>, waitFg: bool)

  predicate IsExit(a: Action) { a.RunBuiltin? && a.builtin == Builtins.Exit }

  /** split_words: the first 64 space/tab-separated words, with no quote
      handling. */
  function Words(s: seq<char>): (ws: seq<seq<char>>)
    ensures |ws| <= MaxWords
  {
    Take(Tokens.Tokens(s, WordDelims), MaxWords)
  }

  /** The `hard` test of `run_sequence`: the first word holds `|`, `>`,
      `<` or `;`. */
  predicate Hard(first: seq<char>)
  {
    '|' in first || '>' in first || '<' in first || ';' in first
  }

  /** One segment: at most 1023 bytes of it, without leading spaces and
      tabs; skipped when no word is left once the pipe and redirection
      characters are cut away; a built-in when its first word names one
      and `hard` is not set; otherwise handed to `execute_command`, in the
      foreground unless the segment's bg flag is set. */
  function Dispatch(seg: seq<char>, bg: bool): Option<Action>
  {
    var s := TrimLeft(Trunc(seg, SegmentBytes));
    var toks := Tokens.Tokens(s, FirstWordDelims);
    if toks == [] then None
    else if !Hard(toks[0]) && Builtins.LookupBuiltin(toks[0]).Some? then
      Some(RunBuiltin(Builtins.LookupBuiltin(toks[0]).value, Words(s)))
    else Some(Execute(s, !bg))
  }

  /** The first word never holds `|`, `>`, `<` or `;`, since those cut
      it: `hard` is never set. */
  lemma FirstWordNeverHard(s: seq<char>)
    ensures forall k :: 0 <= k < |Tokens.Tokens(s, FirstWordDelims)| ==> !Hard(Tokens.Tokens(s, FirstWordDelims)[k])
  {
    Tokens.TokensAreTokens(s, FirstWordDelims);
  }

  /** How a segment is classified, stated on its first 1023 bytes `t`: it
      is skipped exactly when `t` has no word outside " \t|&><;"; it runs
      as a built-in exactly when its first such word is a built-in name,
      whatever pipes or redirections follow, with the space/tab words of
      `t` as arguments; otherwise the text without its leading blanks goes
      to `execute_command`, waited for exactly when `bg` is clear. */
  lemma DispatchClassifies(seg: seq<char>, bg: bool)
    ensures var t := Trunc(seg, SegmentBytes);
      var toks := Tokens.Tokens(t, FirstWordDelims);
      var a := Dispatch(seg, bg);
      (a.None? <==> toks == []) &&
      (a.Some? && a.value.RunBuiltin? <==> toks != [] && Builtins.LookupBuiltin(toks[0]).Some?) &&
      (a.Some? && a.value.RunBuiltin? ==>
        Some(a.value.builtin) == Builtins.LookupBuiltin(toks[0]) &&
        a.value.args == Take(Tokens.Tokens(t, WordDelims), MaxWords)) &&
      (a.Some? && a.value.Execute? ==> a.value.text == TrimLeft(t) && a.value.waitFg == !bg)
  {
    var t := Trunc(seg, SegmentBytes);
    var s := TrimLeft(t);
    var p := |t| - |s|;
    TrimLeftShape(t);
    assert s == t[p..];
    Tokens.TokensAfterDelims(t, p, FirstWordDelims);
    Tokens.TokensAfterDelims(t, p, WordDelims);
    FirstWordNeverHard(s);
  }

  /** One segment's outcome followed by the rest of the line's: a skipped
      segment adds nothing, and `exit` ends the shell, so nothing after it
      is dispatched. */
  function Continue(d: Option<Action>, rest: seq<Action>): (acts: seq<Action>)
    ensures |acts| <= |rest| + 1
  {
    match d
    case None => rest
    case Some(a) => if IsExit(a) then [a] else [a] + rest
  }

  /** Each segment's own outcome. */
  function Outcomes(segs: seq<seq<char>>, bg: seq<bool>): (ds: seq<Option<Action>>)
    requires |bg| == |segs|
    ensures |ds| == |segs|
  {
    seq(|segs|, k requires 0 <= k < |segs| => Dispatch(segs[k], bg[k]))
  }

  lemma OutcomeAt(segs: seq<seq<char>>, bg: seq<bool>, k: nat)
    requires |bg| == |segs| && k < |segs|
    ensures Outcomes(segs, bg)[k] == Dispatch(segs[k], bg[k])
  {
  }

  /** The actions of a run of outcomes, in order, up to the first `exit`. */
  function Chain(ds: seq<Option<Action>>): (acts: seq<Action>)
    ensures |acts| <= |ds|
  {
    if ds == [] then [] else Continue(ds[0], Chain(ds[1..]))
  }

  /** Every segment's outcome over the whole line, in order. */
  function Dispatched(segs: seq<seq<char>>, bg: seq<bool>): (acts: seq<Action>)
    requires |bg| == |segs|
    ensures |acts| <= |segs|
  {
    Chain(Outcomes(segs, bg))
  }

  /** The bg flags of `run_sequence`: none is ever set. */
  function NoFlags(n: nat): (bg: seq<bool>)
    ensures |bg| == n && forall k :: 0 <= k < n ==> !bg[k]
  {
    seq(n, k => false)
  }

  predicate Waits(d: Option<Action>)
  {
    d.Some? && d.value.Execute? ==> d.value.waitFg
  }

  /** Every action of a chain is one of its outcomes, so a property of
      all outcomes holds of all actions. */
  lemma {:induction false} ChainWaits(ds: seq<Option<Action>>)
    requires forall k :: 0 <= k < |ds| ==> Waits(ds[k])
    ensures forall k :: 0 <= k < |Chain(ds)| ==> Waits(Some(Chain(ds)[k]))
  {
    if ds != [] {
      ChainWaits(ds[1..]);
      assert Waits(ds[0]);
    }
  }

  /** With no bg flag set, every segment handed to `execute_command` is
      run in the foreground. */
  lemma AllForeground(segs: seq<seq<char>>)
    ensures forall k :: 0 <= k < |Dispatched(segs, NoFlags(|segs|))| ==>
      var a := Dispatched(segs, NoFlags(|segs|))[k]; a.Execute? ==> a.waitFg
  {
    var ds := Outcomes(segs, NoFlags(|segs|));
    forall k | 0 <= k < |ds|
      ensures Waits(ds[k])
    {
      OutcomeAt(segs, NoFlags(|segs|), k);
      DispatchClassifies(segs[k], false);
    }
    ChainWaits(ds);
    assert forall k :: 0 <= k < |Chain(ds)| ==> Waits(Some(Chain(ds)[k]));
  }

  /** `exit` can only be the last action of a chain. */
  lemma {:induction false} ChainExitIsLast(ds: seq<Option<Action>>)
    ensures forall k :: 0 <= k < |Chain(ds)| - 1 ==> !IsExit(Chain(ds)[k])
  {
    if ds != [] {
      ChainExitIsLast(ds[1..]);
      var rest := Chain(ds[1..]);
      match ds[0]
      case None =>
        assert Chain(ds) == rest;
      case Some(a) =>
        if !IsExit(a) {
          assert Chain(ds) == [a] + rest;
          assert forall k :: 1 <= k < |rest| + 1 ==> ([a] + rest)[k] == rest[k - 1];
        }
    }
  }

  /** `exit` can only be the last action: the shell ends there. */
  lemma ExitIsLast(segs: seq<seq<char>>, bg: seq<bool>)
    requires |bg| == |segs|
    ensures var acts := Dispatched(segs, bg);
      forall k :: 0 <= k < |acts| - 1 ==> !IsExit(acts[k])
  {
    ChainExitIsLast(Outcomes(segs, bg));
  }

  /** `split_words`, with room for the terminator: the words go into
      `args[0..n)` and `args[n]` is set to NULL. */
  method SplitWords(line: seq<char>, args: array<Option<seq<char>>>) returns (n: nat)
    requires args.Length == MaxWords + 1
    modifies args
    ensures n == |Words(line)| && n < args.Length
    ensures forall k :: 0 <= k < n ==> args[k] == Some(Words(line)[k])
    ensures args[n] == None
    ensures forall k :: n < k < args.Length ==> args[k] == old(args[k])
  {
    ghost var toks := Tokens.Tokens(line, WordDelims);
    var pos: nat := 0;
    n := 0;
    var tok := Tokens.NextToken(line, 0, WordDelims);
    while tok.Some? && n < MaxWords
      invariant pos <= |line| && tok == Tokens.NextToken(line, pos, WordDelims)
      invariant n <= |toks| && n <= MaxWords && Tokens.TokensFrom(line, pos, WordDelims) == toks[n..]
      invariant forall k :: 0 <= k < n ==> args[k] == Some(toks[k])
      invariant forall k :: n <= k < args.Length ==> args[k] == old(args[k])
      decreases |line| - pos
    {
      WordStep(line, pos, toks, n);
      args[n] := Some(tok.value.0);
      n := n + 1;
      pos := tok.value.1;
      tok := Tokens.NextToken(line, pos, WordDelims);
    }
    assert n == |toks| || n == MaxWords;
    args[n] := None;
  }

  /** One more strtok call of `split_words` yields the next word. */
  lemma WordStep(line: seq<char>, pos: nat, toks: seq<seq<char>>, n: nat)
    requires pos <= |line| && n <= |toks| && Tokens.TokensFrom(line, pos, WordDelims) == toks[n..]
    requires Tokens.NextToken(line, pos, WordDelims).Some?
    ensures var tok := Tokens.NextToken(line, pos, WordDelims).value;
      n < |toks| && toks[n] == tok.0 && Tokens.TokensFrom(line, tok.1, WordDelims) == toks[n + 1..]
  {
    var tok := Tokens.NextToken(line, pos, WordDelims).value;
    assert Tokens.TokensFrom(line, pos, WordDelims) == [tok.0] + Tokens.TokensFrom(line, tok.1, WordDelims);
    assert toks[n..][1..] == toks[n + 1..];
  }

  /** The stored words of `args[0..n)`. */
  function Stored(args: seq<Option<seq<char>>>, n: nat): (ws: seq<seq<char>>)
    requires n <= |args| && forall k :: 0 <= k < n ==> args[k].Some?
    ensures |ws| == n && forall k :: 0 <= k < n ==> Some(ws[k]) == args[k]
  {
    seq(n, k requires 0 <= k < n => args[k].value)
  }

  /** `TrimLeft` drops exactly the leading blanks. */
  lemma TrimLeftAt(t: seq<char>, p: nat)
    requires p <= |t| && (forall k :: 0 <= k < p ==> IsBlank(t[k])) && (p == |t| || !IsBlank(t[p]))
    ensures TrimLeft(t) == t[p..]
    decreases p
  {
    if p > 0 {
      TrimLeftAt(t[1..], p - 1);
      assert t[1..][p - 1..] == t[p..];
    }
  }

  /** The loop that steps over leading spaces and tabs. */
  method SkipBlanks(temp: seq<char>) returns (s: seq<char>)
    ensures s == TrimLeft(temp)
  {
    var p := 0;
    while p < |temp| && (temp[p] == ' ' || temp[p] == '\t')
      invariant p <= |temp| && forall k :: 0 <= k < p ==> IsBlank(temp[k])
    {
      p := p + 1;
    }
    TrimLeftAt(temp, p);
    s := temp[p..];
  }

  /** The loop over builtin_names: the index of `word`, or -1. */
  method FindBuiltin(word: seq<char>) returns (j: int)
    ensures -1 <= j < |Builtins.BuiltinNames|
    ensures j == -1 <==> Builtins.LookupBuiltin(word).None?
    ensures j >= 0 ==> Builtins.LookupBuiltin(word) == Some(Builtins.BuiltinAt(j))
  {
    j := 0;
    while j < |Builtins.BuiltinNames|
      invariant j <= |Builtins.BuiltinNames|
      invariant Builtins.LookupBuiltin(word) == Builtins.LookupFrom(word, j)
    {
      if word == Builtins.BuiltinNames[j] {
        return;
      }
      j := j + 1;
    }
    j := -1;
  }

  /** `char *args[..]` filled by `split_words`, read back as words. */
  method CollectWords(s: seq<char>) returns (words: seq<seq<char>>)
    ensures words == Words(s)
  {
    var args := new Option<seq<char>>[MaxWords + 1];
    var argc := SplitWords(s, args);
    words := Stored(args[..], argc);
    assert forall k :: 0 <= k < argc ==> words[k] == Words(s)[k];
  }

  /** The first word of a segment, as strtok cuts it from `s`. */
  lemma FirstWord(s: seq<char>)
    ensures Tokens.NextToken(s, 0, FirstWordDelims).None? <==> Tokens.Tokens(s, FirstWordDelims) == []
    ensures Tokens.NextToken(s, 0, FirstWordDelims).Some? ==>
      Tokens.Tokens(s, FirstWordDelims)[0] == Tokens.NextToken(s, 0, FirstWordDelims).value.0
  {
  }

  /** The body of `run_sequence`'s second loop for one segment. */
  method DispatchSegment(seg: seq<char>, bg: bool) returns (a: Option<Action>)
    ensures a == Dispatch(seg, bg)
  {
    var temp := Trunc(seg, SegmentBytes);
    if temp == [] {
      assert TrimLeft(temp) == [] && Tokens.Tokens([], FirstWordDelims) == [];
      return None;
    }
    var s := SkipBlanks(temp);
    if s == [] {
      assert Tokens.Tokens(s, FirstWordDelims) == [];
      return None;
    }
    var first := Tokens.NextToken(s, 0, FirstWordDelims);
    FirstWord(s);
    if first.None? {
      return None;
    }
    var word := first.value.0;
    var hard := '|' in word || '>' in word || '<' in word || ';' in word;
    if !hard {
      var j := FindBuiltin(word);
      if j >= 0 {
        var words := CollectWords(s);
        return Some(RunBuiltin(Builtins.BuiltinAt(j), words));
      }
    }
    a := Some(Execute(s, !bg));
  }

  /** How `run_sequence` ends: it returns 1, unless it ran `exit`, which
      ends the shell with status 0. */
  datatype Ending = Returned(value: int) | ShellExit(status: int)

  /** A line of at most 2047 bytes from `line`, as buf[2048] holds it
      after strncpy: the bytes, then NULs. */
  method LineBuffer(t: seq<char>) returns (buf: array<char>)
    requires |t| <= LineBytes
    ensures fresh(buf) && buf.Length == LineBytes + 1
    ensures buf[..|t|] == t && forall k :: |t| <= k < buf.Length ==> buf[k] == NUL
  {
    buf := new char[LineBytes + 1](k => if 0 <= k < |t| then t[k] else NUL);
  }

  /** run_sequence: the line (cut to 2047 bytes) is split at every `;` and
      `&`, and each segment is dispatched in order until `exit`. */
  method RunSequence(line: seq<char>) returns (acts: seq<Action>, ending: Ending)
    requires NUL !in line && |Seps(Trunc(line, LineBytes))| < MaxSegments
    ensures var segs := Segments(Trunc(line, LineBytes));
      acts == Dispatched(segs, NoFlags(|segs|))
    ensures ending == if acts != [] && IsExit(acts[|acts| - 1]) then ShellExit(0) else Returned(1)
  {
    var t := Trunc(line, LineBytes);
    var buf := LineBuffer(t);
    var n := |t|;
    assert buf[..n] == t;
    var starts, bg := SplitLine(buf, n);
    ghost var segs := Segments(t);
    assert bg == NoFlags(|segs|);
    acts, ending := DispatchAll(buf[..], starts, bg, segs);
  }

  /** One turn of the dispatch loop, on the outcomes alone. */
  lemma LoopStep(ds: seq<Option<Action>>, i: nat, acts: seq<Action>, a: Option<Action>, whole: seq<Action>)
    requires i < |ds| && a == ds[i]
    requires acts + Chain(ds[i..]) == whole && NoExit(acts)
    ensures a.Some? && IsExit(a.value) ==> acts + [a.value] == whole
    ensures a.None? ==> acts + Chain(ds[i + 1..]) == whole
    ensures a.Some? && !IsExit(a.value) ==>
      (acts + [a.value]) + Chain(ds[i + 1..]) == whole && NoExit(acts + [a.value])
  {
    var rest := Chain(ds[i + 1..]);
    assert ds[i..][0] == a && ds[i..][1..] == ds[i + 1..];
    assert Chain(ds[i..]) == Continue(a, rest);
    match a
    case None =>
    case Some(x) =>
      if !IsExit(x) {
        assert (acts + [x]) + rest == acts + ([x] + rest);
        NoExitSnoc(acts, x);
      }
  }

  ghost predicate NoExit(acts: seq<Action>)
  {
    forall k :: 0 <= k < |acts| ==> !IsExit(acts[k])
  }

  lemma NoExitSnoc(acts: seq<Action>, a: Action)
    requires NoExit(acts) && !IsExit(a)
    ensures NoExit(acts + [a])
  {
    assert forall k :: 0 <= k < |acts| ==> (acts + [a])[k] == acts[k];
  }

  /** The second loop of `run_sequence`: each segment in turn, until
      `exit`. */
  method DispatchAll(text: seq<char>, starts: seq<nat>, bg: seq<bool>, ghost segs: seq<seq<char>>)
    returns (acts: seq<Action>, ending: Ending)
    requires |starts| == |bg| == |segs|
    requires forall k :: 0 <= k < |starts| ==> TermFrom(text, starts[k]) && StrAt(text, starts[k]) == segs[k]
    ensures acts == Dispatched(segs, bg)
    ensures ending == if acts != [] && IsExit(acts[|acts| - 1]) then ShellExit(0) else Returned(1)
  {
    ghost var ds := Outcomes(segs, bg);
    acts := [];
    var i := 0;
    while i < |starts|
      invariant i <= |starts|
      invariant acts + Chain(ds[i..]) == Chain(ds)
      invariant NoExit(acts)
    {
      var a := DispatchSegment(StrAt(text, starts[i]), bg[i]);
      OutcomeAt(segs, bg, i);
      LoopStep(ds, i, acts, a, Chain(ds));
      if a.Some? {
        acts := acts + [a.value];
        if IsExit(a.value) {
          return acts, ShellExit(0);
        }
      }
      i := i + 1;
    }
    ending := Returned(1);
  }
  // ------------------------------------------------ split_words round trip

  /** Words joined by single spaces split back into the same words, as
      long as there are at most 64 of them. */
  lemma {:induction false} SplitJoin(ws: seq<seq<char>>)
    requires forall k :: 0 <= k < |ws| ==> Tokens.IsToken(ws[k], WordDelims)
    ensures Tokens.Tokens(Builtins.Join(ws, " "), WordDelims) == ws
    ensures |ws| <= MaxWords ==> Words(Builtins.Join(ws, " ")) == ws
  {
    if ws == [] {
      assert Tokens.NextToken([], 0, WordDelims).None?;
    } else if |ws| == 1 {
      Tokens.OnlyToken(ws[0], WordDelims);
    } else {
      SplitJoin(ws[1..]);
      Tokens.FirstToken(ws[0], ' ', Builtins.Join(ws[1..], " "), WordDelims);
      assert Builtins.Join(ws, " ") == ws[0] + [' '] + Builtins.Join(ws[1..], " ");
      assert ws == [ws[0]] + ws[1..];
    }
  }

  // ------------------------------------------- the args[64] terminator slot

  /** `char *args[64]` in the built-in branch of `run_sequence`. */
  const SourceArgsSlots: nat := 64

  /** As written: the slot of `args` that `split_words` sets to NULL, one
      past the last word stored. It must be below `SourceArgsSlots`. */
  function TerminatorSlot(line: seq<char>): (slot: nat)
    ensures slot <= SourceArgsSlots
  {
    |Words(line)|
  }

  /** "echo" followed by 63 one-letter words. */
  function SixtyFourWords(): (ws: seq<seq<char>>)
    ensures |ws| == 64 && ws[0] == "echo"
    ensures forall k :: 0 <= k < |ws| ==> Tokens.IsToken(ws[k], WordDelims) && |ws[k]| <= 4
  {
    ["echo"] + seq(63, k => "a")
  }

  /** The line "echo a a ... a" (64 words) is a built-in segment, so
      `split_words` runs on it with `char *args[64]`, and the terminator
      goes to `args[64]`, one past the end of the array. With room for
      65 slots, as `SplitWords` has, the terminator fits. */
  lemma SixtyFourWordsOverrun()
    ensures var line := Builtins.Join(SixtyFourWords(), " ");
      |line| <= SegmentBytes &&
      Dispatch(line, false) == Some(RunBuiltin(Builtins.Echo, SixtyFourWords())) &&
      TerminatorSlot(line) == SourceArgsSlots &&
      TerminatorSlot(line) < MaxWords + 1
  {
    var line := Builtins.Join(SixtyFourWords(), " ");
    SixtyFourWordsLine();
    EchoIsBuiltin();
    DispatchClassifies(line, false);
  }

  lemma EchoIsBuiltin()
    ensures Builtins.LookupBuiltin("echo") == Some(Builtins.Echo)
  {
    assert Builtins.LookupFrom("echo", 2) == Some(Builtins.Echo);
  }

  /** The words of the 64-word line, and its first word. */
  lemma SixtyFourWordsLine()
    ensures var line := Builtins.Join(SixtyFourWords(), " ");
      |line| <= SegmentBytes && Trunc(line, SegmentBytes) == line &&
      Words(line) == SixtyFourWords() &&
      Tokens.Tokens(line, FirstWordDelims) != [] && Tokens.Tokens(line, FirstWordDelims)[0] == "echo"
  {
    SixtyFourWordsSplit();
    JoinLength(SixtyFourWords());
    SixtyFourWordsFirst();
  }

  lemma SixtyFourWordsSplit()
    ensures Words(Builtins.Join(SixtyFourWords(), " ")) == SixtyFourWords()
  {
    SplitJoin(SixtyFourWords());
  }

  lemma SixtyFourWordsFirst()
    ensures var toks := Tokens.Tokens(Builtins.Join(SixtyFourWords(), " "), FirstWordDelims);
      toks != [] && toks[0] == "echo"
  {
    var ws := SixtyFourWords();
    var rest := Builtins.Join(ws[1..], " ");
    assert Builtins.Join(ws, " ") == "echo" + [' '] + rest;
    Tokens.FirstToken("echo", ' ', rest, FirstWordDelims);
  }

  /** A join of single-letter words and "echo" is short. */
  lemma {:induction false} JoinLength(ws: seq<seq<char>>)
    requires forall k :: 0 <= k < |ws| ==> |ws[k]| <= 4
    ensures |Builtins.Join(ws, " ")| <= 5 * |ws|
  {
    if |ws| > 1 {
      JoinLength(ws[1..]);
    }
  }
}
