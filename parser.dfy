/** The line validator of src/parser.c.

    `valid_cmd_seg` and the `atomic` it calls are abstract here: a
    recogniser is any function that, given the line and a start index,
    says whether a segment is recognised there and where it ends. The outer
    loop of `parse_shell_cmd` is verified against any such recogniser. */
module Parser {

  /** The bytes skip_ws advances over. */
  predicate IsWs(c: char)
  {
    c == ' ' || c == '\t' || c == '\n'
  }

  predicate IsSep(c: char)
  {
    c == ';' || c == '&'
  }

  predicate AllWs(t: seq<char>)
  {
    forall k :: 0 <= k < |t| ==> IsWs(t[k])
  }

  /** Where skip_ws leaves an index that starts at `i`. */
  function WsEnd(s: seq<char>, i: nat): (j: nat)
    requires i <= |s|
    ensures i <= j <= |s|
    ensures forall k :: i <= k < j ==> IsWs(s[k])
    ensures j < |s| ==> !IsWs(s[j])
    decreases |s| - i
  {
    if i < |s| && IsWs(s[i]) then WsEnd(s, i + 1) else i
  }

  /** skip_ws: advances over space, tab and newline and stops at the first
      other byte or at the end of the string. */
  method SkipWs(s: seq<char>, i: nat) returns (j: nat)
    requires i <= |s|
    ensures j == WsEnd(s, i)
  {
    j := i;
    while j < |s| && IsWs(s[j])
      invariant i <= j <= |s|
      invariant WsEnd(s, j) == WsEnd(s, i)
    {
      j := j + 1;
    }
  }

  /** What the abstract segment recogniser reports. */
  datatype SegResult = SegResult(ok: bool, next: nat)

  type Recogniser = (seq<char>, nat) -> SegResult

  /** A recogniser only moves the index forward and stays inside the line. */
  predicate Advances(seg: Recogniser, s: seq<char>)
  {
    forall i :: 0 <= i <= |s| && seg(s, i).ok ==> i <= seg(s, i).next <= |s|
  }

  /** The index at which the `for(;;)` loop of parse_shell_cmd stops when it
      starts at `i`: after each `;`/`&` it tries one more segment and, if
      that fails, restores the index saved before the separator. */
  function LoopEnd(s: seq<char>, seg: Recogniser, i: nat): (r: nat)
    requires i <= |s| && Advances(seg, s)
    ensures i <= r <= |s|
    decreases |s| - i
  {
    var j := WsEnd(s, i);
    if j < |s| && IsSep(s[j]) then
      var r := seg(s, WsEnd(s, j + 1));
      if r.ok then LoopEnd(s, seg, r.next) else i
    else i
  }

  /** After the loop: at most one trailing separator with whitespace around
      it, and then the terminating NUL. */
  predicate TailAccepts(s: seq<char>, i: nat)
    requires i <= |s|
  {
    var j := WsEnd(s, i);
    var k := if j < |s| && IsSep(s[j]) then j + 1 else j;
    WsEnd(s, k) == |s|
  }

  /** The language parse_shell_cmd accepts, for a given recogniser. */
  predicate Accepts(s: seq<char>, seg: Recogniser)
    requires Advances(seg, s)
  {
    var first := seg(s, 0);
    first.ok && TailAccepts(s, LoopEnd(s, seg, first.next))
  }

  /** The `for(;;)` loop of parse_shell_cmd with its save/restore of the
      index. */
  method SeparatorLoop(s: seq<char>, seg: Recogniser, start: nat) returns (i: nat)
    requires start <= |s| && Advances(seg, s)
    ensures i == LoopEnd(s, seg, start)
  {
    i := start;
    while true
      invariant i <= |s|
      invariant LoopEnd(s, seg, i) == LoopEnd(s, seg, start)
      decreases |s| - i
    {
      var save := i;
      i := SkipWs(s, i);
      if i < |s| && IsSep(s[i]) {
        i := i + 1;
        i := SkipWs(s, i);
        var r := seg(s, i);
        assert LoopEnd(s, seg, save) == if r.ok then LoopEnd(s, seg, r.next) else save;
        if !r.ok {
          i := save;
          break;
        }
        i := r.next;
      } else {
        i := save;
        break;
      }
    }
  }

  /** parse_shell_cmd. */
  method ParseShellCmd(s: seq<char>, seg: Recogniser) returns (ok: bool)
    requires Advances(seg, s)
    ensures ok == Accepts(s, seg)
    ensures !seg(s, 0).ok ==> !ok
  {
    var first := seg(s, 0);
    if !first.ok {
      return false;
    }
    var i := SeparatorLoop(s, seg, first.next);
    ghost var loopEnd := i;
    i := SkipWs(s, i);
    if i < |s| && IsSep(s[i]) {
      i := i + 1;
    }
    i := SkipWs(s, i);
    ok := i == |s|;
    assert ok == TailAccepts(s, loopEnd);
  }

  /** What may follow the last segment: only whitespace, or whitespace, one
      `;` or `&`, and whitespace. */
  predicate ClosingTail(t: seq<char>)
  {
    AllWs(t) || exists k :: 0 <= k < |t| && IsSep(t[k]) && AllWs(t[..k]) && AllWs(t[k + 1..])
  }

  lemma TailAcceptsIff(s: seq<char>, i: nat)
    requires i <= |s|
    ensures TailAccepts(s, i) <==> ClosingTail(s[i..])
  {
    if ClosingTail(s[i..]) {
      ClosingTailAccepted(s, i);
    }
    if TailAccepts(s, i) {
      AcceptedTailCloses(s, i);
    }
  }

  lemma ClosingTailAccepted(s: seq<char>, i: nat)
    requires i <= |s| && ClosingTail(s[i..])
    ensures TailAccepts(s, i)
  {
    var t := s[i..];
    if AllWs(t) {
      WsEndAll(s, i);
    } else {
      var k :| 0 <= k < |t| && IsSep(t[k]) && AllWs(t[..k]) && AllWs(t[k + 1..]);
      SepTailAccepted(s, i, k);
    }
  }

  lemma SepTailAccepted(s: seq<char>, i: nat, k: nat)
    requires i + k < |s| && IsSep(s[i..][k]) && AllWs(s[i..][..k]) && AllWs(s[i..][k + 1..])
    ensures TailAccepts(s, i)
  {
    var t, e := s[i..], i + k;
    assert t[..k] == s[i..e] && t[k] == s[e] && t[k + 1..] == s[e + 1..];
    WsEndAt(s, i, e);
    WsEndAll(s, e + 1);
  }

  lemma AcceptedTailCloses(s: seq<char>, i: nat)
    requires i <= |s| && TailAccepts(s, i)
    ensures ClosingTail(s[i..])
  {
    var t := s[i..];
    var j := WsEnd(s, i);
    WsBefore(s, i);
    if j < |s| && IsSep(s[j]) {
      WsBefore(s, j + 1);
      assert IsSep(t[j - i]) && t[..j - i] == s[i..j] && t[j - i + 1..] == s[j + 1..];
    } else {
      assert j == |s| && t == s[i..j];
    }
  }

  /** skip_ws runs to the end over a run of whitespace. */
  lemma WsEndAll(s: seq<char>, i: nat)
    requires i <= |s| && AllWs(s[i..])
    ensures WsEnd(s, i) == |s|
  {
    forall k | i <= k < |s|
      ensures IsWs(s[k])
    {
      assert s[k] == s[i..][k - i];
    }
  }

  /** skip_ws stops at the first byte that is not whitespace. */
  lemma WsEndAt(s: seq<char>, i: nat, e: nat)
    requires i <= e < |s| && AllWs(s[i..e]) && !IsWs(s[e])
    ensures WsEnd(s, i) == e
  {
    forall k | i <= k < e
      ensures IsWs(s[k])
    {
      assert s[k] == s[i..e][k - i];
    }
  }

  /** What skip_ws skips is whitespace. */
  lemma WsBefore(s: seq<char>, i: nat)
    requires i <= |s|
    ensures AllWs(s[i..WsEnd(s, i)])
  {
    var j := WsEnd(s, i);
    forall k | 0 <= k < j - i
      ensures IsWs(s[i..j][k])
    {
      assert s[i..j][k] == s[i + k];
    }
  }

  /** parse_shell_cmd accepts exactly when the first segment is recognised
      and what follows the separator loop is a closing tail. */
  lemma AcceptsIff(s: seq<char>, seg: Recogniser)
    requires Advances(seg, s)
    ensures Accepts(s, seg) <==>
      seg(s, 0).ok && ClosingTail(s[LoopEnd(s, seg, seg(s, 0).next)..])
  {
    if seg(s, 0).ok {
      TailAcceptsIff(s, LoopEnd(s, seg, seg(s, 0).next));
    }
  }

  /** A separator followed by text that does not start a recognised segment
      (and is not just whitespace) makes the whole line rejected: the loop
      restores the index, the separator is consumed as the trailing one, and
      the text after it is left over. */
  lemma RejectedSecondSegment(s: seq<char>, seg: Recogniser)
    requires Advances(seg, s) && seg(s, 0).ok
    requires WsEnd(s, seg(s, 0).next) < |s| && IsSep(s[WsEnd(s, seg(s, 0).next)])
    requires WsEnd(s, WsEnd(s, seg(s, 0).next) + 1) < |s|
    requires !seg(s, WsEnd(s, WsEnd(s, seg(s, 0).next) + 1)).ok
    ensures !Accepts(s, seg)
  {
    assert LoopEnd(s, seg, seg(s, 0).next) == seg(s, 0).next;
  }

  /** Two separators in a row after the last segment are never accepted:
      only one trailing separator is consumed. */
  lemma DoubleSeparatorRejected(s: seq<char>, seg: Recogniser, i: nat)
    requires Advances(seg, s) && seg(s, 0).ok && i == LoopEnd(s, seg, seg(s, 0).next)
    requires WsEnd(s, i) < |s| && IsSep(s[WsEnd(s, i)])
    requires WsEnd(s, WsEnd(s, i) + 1) < |s| && IsSep(s[WsEnd(s, WsEnd(s, i) + 1)])
    ensures !Accepts(s, seg)
  {
  }
}
