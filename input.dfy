/** The raw-mode line editor of src/input.c, driven by the bytes `read`
    would deliver. The history it browses is the log's entries, oldest
    first; what the editor echoes is returned as a string. */
module Input {
  import opened Wrappers
  import opened CStrings

  newtype Byte = x: int | 0 <= x < 256

  /** The size of the static line buffer; a line holds one byte less. */
  const BufSize: nat := 2048
  const MaxLine: nat := 2047

  /** The value of a byte read into a plain (signed) `char`. */
  function Signed(b: Byte): (c: int)
    ensures -128 <= c < 128
    ensures b < 128 ==> c == b as int
  {
    if b < 128 then b as int else b as int - 256
  }

  function ToChar(b: Byte): char
  {
    (b as int) as char
  }

  /** History entries fit their 1024-byte slots and hold no NUL. */
  predicate GoodLog(log: seq<seq<char>>)
  {
    forall k :: 0 <= k < |log| ==> |log[k]| <= 1023 && NUL !in log[k]
  }

  /** The echo that rubs out one character. */
  const Rubout: seq<char> := [8 as char, ' ', 8 as char]

  function Erase(n: nat): (r: seq<char>)
    ensures |r| == 3 * n
  {
    if n == 0 then [] else Erase(n - 1) + Rubout
  }

  /** The editor's state between bytes: the line so far and hist_idx. */
  datatype Ed = Ed(text: seq<char>, hist: nat)

  predicate GoodEd(log: seq<seq<char>>, e: Ed)
  {
    |e.text| <= MaxLine && e.hist <= |log|
  }

  /** What one call of input_read_line yields: the line (None for NULL),
      how many bytes it consumed, and what it echoed. */
  datatype ReadResult = ReadResult(line: Option<seq<char>>, consumed: nat, echo: seq<char>)

  /** The effect of an escape sequence whose two bytes are `b0` and `b1`. */
  function Escape(log: seq<seq<char>>, e: Ed, b0: Byte, b1: Byte): (r: (Ed, seq<char>))
    requires GoodLog(log) && GoodEd(log, e)
    ensures GoodEd(log, r.0)
  {
    if Signed(b0) == '[' as int && Signed(b1) == 'A' as int then
      if e.hist > 0 then
        var entry := log[e.hist - 1];
        (Ed(entry, e.hist - 1), Erase(|e.text|) + entry)
      else (e, [])
    else if Signed(b0) == '[' as int && Signed(b1) == 'B' as int then
      if e.hist + 1 < |log| then
        var entry := log[e.hist + 1];
        (Ed(entry, e.hist + 1), Erase(|e.text|) + entry)
      else (Ed([], |log|), Erase(|e.text|))
    else (e, [])
  }

  /** What reading one byte leads to: the call returns, or it goes on at
      byte `i` in state `e` having echoed `echo`. */
  datatype Next = Done(r: ReadResult) | Go(i: nat, e: Ed, echo: seq<char>)

  /** The loop body of input_read_line for the byte at `i`. */
  function Step(log: seq<seq<char>>, input: seq<Byte>, i: nat, e: Ed, echo: seq<char>): (n: Next)
    requires GoodLog(log) && GoodEd(log, e) && i < |input|
    ensures n.Go? ==> i < n.i <= |input| && GoodEd(log, n.e)
    ensures n.Done? ==> n.r.consumed == i + 1
    ensures n.Done? && n.r.line.Some? ==> n.r.line.value == e.text
  {
    var c := Signed(input[i]);
    if c == '\r' as int || c == '\n' as int then Done(ReadResult(Some(e.text), i + 1, echo + "\n"))
    else if c == 127 || c == 8 then
      if |e.text| > 0 then Go(i + 1, Ed(e.text[..|e.text| - 1], e.hist), echo + Rubout)
      else Go(i + 1, e, echo)
    else if c == 4 then
      if |e.text| == 0 then Done(ReadResult(None, i + 1, echo))
      else Go(i + 1, e, echo)
    else if c == 27 then
      if i + 2 < |input| then
        var (e', out) := Escape(log, e, input[i + 1], input[i + 2]);
        Go(i + 3, e', echo + out)
      else
        Go(|input|, e, echo)
    else if c >= 32 && |e.text| < MaxLine then
      Go(i + 1, Ed(e.text + [ToChar(input[i])], e.hist), echo + [ToChar(input[i])])
    else Go(i + 1, e, echo)
  }

  /** input_read_line from byte `i` of the input on, in state `e`, having
      echoed `echo`; NULL when the input runs out. */
  function Run(log: seq<seq<char>>, input: seq<Byte>, i: nat, e: Ed, echo: seq<char>): (r: ReadResult)
    requires GoodLog(log) && GoodEd(log, e) && i <= |input|
    ensures i <= r.consumed <= |input|
    ensures r.line.Some? ==> |r.line.value| <= MaxLine
    decreases |input| - i
  {
    if i == |input| then ReadResult(None, i, echo)
    else match Step(log, input, i, e, echo)
      case Done(r) => r
      case Go(i', e', echo') => Run(log, input, i', e', echo')
  }

  /** A fresh call: an empty line, hist_idx at the end of the log. */
  function ReadLineSpec(log: seq<seq<char>>, input: seq<Byte>): ReadResult
    requires GoodLog(log)
  {
    Run(log, input, 0, Ed([], |log|), [])
  }

  // --------------------------------------------------------- properties

  /** Bytes that are typed as themselves: printable ASCII. */
  predicate Printable(w: seq<Byte>)
  {
    forall k :: 0 <= k < |w| ==> 32 <= w[k] < 127
  }

  function Chars(w: seq<Byte>): (s: seq<char>)
    ensures |s| == |w| && forall k :: 0 <= k < |w| ==> s[k] == ToChar(w[k])
  {
    if w == [] then [] else [ToChar(w[0])] + Chars(w[1..])
  }

  /** A printable byte is appended while there is room. */
  lemma PrintableStep(log: seq<seq<char>>, input: seq<Byte>, i: nat, e: Ed, echo: seq<char>)
    requires GoodLog(log) && GoodEd(log, e) && i < |input|
    requires 32 <= input[i] < 127 && |e.text| < MaxLine
    ensures Run(log, input, i, e, echo) ==
      Run(log, input, i + 1, Ed(e.text + [ToChar(input[i])], e.hist), echo + [ToChar(input[i])])
  {
    assert Step(log, input, i, e, echo) == Go(i + 1, Ed(e.text + [ToChar(input[i])], e.hist), echo + [ToChar(input[i])]);
  }

  /** LF (or CR) returns the line. */
  lemma EnterStep(log: seq<seq<char>>, input: seq<Byte>, i: nat, e: Ed, echo: seq<char>)
    requires GoodLog(log) && GoodEd(log, e) && i < |input| && (input[i] == 10 || input[i] == 13)
    ensures Run(log, input, i, e, echo) == ReadResult(Some(e.text), i + 1, echo + "\n")
  {
    assert Step(log, input, i, e, echo) == Done(ReadResult(Some(e.text), i + 1, echo + "\n"));
  }

  lemma TypedEnd(log: seq<seq<char>>, w: seq<Byte>, rest: seq<Byte>, e: Ed, echo: seq<char>)
    requires GoodLog(log) && GoodEd(log, e)
    requires e.text == Chars(w)
    requires |rest| > 0 && rest[0] == 10
    ensures Run(log, w + rest, |w|, e, echo) == ReadResult(Some(Chars(w)), |w| + 1, echo + Chars(w)[|w|..] + "\n")
  {
    assert (w + rest)[|w|] == 10;
    EnterStep(log, w + rest, |w|, e, echo);
    assert Chars(w)[|w|..] == [];
  }

  lemma {:induction false} TypedFrom(log: seq<seq<char>>, w: seq<Byte>, rest: seq<Byte>, j: nat, e: Ed, echo: seq<char>)
    requires GoodLog(log) && GoodEd(log, e)
    requires Printable(w) && |w| <= MaxLine && j <= |w|
    requires e.text == Chars(w)[..j]
    requires |rest| > 0 && rest[0] == 10
    ensures Run(log, w + rest, j, e, echo) == ReadResult(Some(Chars(w)), |w| + 1, echo + Chars(w)[j..] + "\n")
    decreases |w| - j
  {
    var input := w + rest;
    if j == |w| {
      TypedEnd(log, w, rest, e, echo);
    } else {
      var c := ToChar(w[j]);
      TypedStep(log, w, rest, j, e, echo);
      TypedFrom(log, w, rest, j + 1, Ed(e.text + [c], e.hist), echo + [c]);
    }
  }

  /** One printable byte of `w`: appended to the line and echoed. */
  lemma TypedStep(log: seq<seq<char>>, w: seq<Byte>, rest: seq<Byte>, j: nat, e: Ed, echo: seq<char>)
    requires GoodLog(log) && GoodEd(log, e)
    requires Printable(w) && |w| <= MaxLine && j < |w|
    requires e.text == Chars(w)[..j]
    ensures var c := ToChar(w[j]); var e' := Ed(e.text + [c], e.hist);
      GoodEd(log, e') && e'.text == Chars(w)[..j + 1] &&
      Run(log, w + rest, j, e, echo) == Run(log, w + rest, j + 1, e', echo + [c]) &&
      (echo + [c]) + Chars(w)[j + 1..] == echo + Chars(w)[j..]
  {
    var input := w + rest;
    var c := ToChar(w[j]);
    assert input[j] == w[j];
    PrintableStep(log, input, j, e, echo);
    CharsAt(w, j, echo);
  }

  lemma CharsAt(w: seq<Byte>, j: nat, echo: seq<char>)
    requires j < |w|
    ensures var c := ToChar(w[j]);
      |Chars(w)| == |w| && Chars(w)[..j + 1] == Chars(w)[..j] + [c] &&
      (echo + [c]) + Chars(w)[j + 1..] == echo + Chars(w)[j..]
  {
    var cs := Chars(w);
    assert cs[..j + 1] == cs[..j] + [cs[j]];
    assert cs[j..] == [cs[j]] + cs[j + 1..];
  }

  /** Printable text of at most 2047 bytes, then LF, is returned verbatim
      and echoed as typed. */
  lemma TypedLine(log: seq<seq<char>>, w: seq<Byte>, rest: seq<Byte>)
    requires GoodLog(log) && Printable(w) && |w| <= MaxLine
    requires |rest| > 0 && rest[0] == 10
    ensures ReadLineSpec(log, w + rest) == ReadResult(Some(Chars(w)), |w| + 1, Chars(w) + "\n")
  {
    TypedFrom(log, w, rest, 0, Ed([], |log|), []);
  }

  /** Ctrl-D on an empty line ends input; on a non-empty line it is
      ignored. */
  lemma CtrlD(log: seq<seq<char>>, input: seq<Byte>, i: nat, e: Ed, echo: seq<char>)
    requires GoodLog(log) && GoodEd(log, e) && i < |input| && input[i] == 4
    ensures e.text == [] ==> Run(log, input, i, e, echo) == ReadResult(None, i + 1, echo)
    ensures e.text != [] ==> Run(log, input, i, e, echo) == Run(log, input, i + 1, e, echo)
  {
  }

  /** Backspace removes the last character, and does nothing on an empty
      line. */
  lemma Backspace(log: seq<seq<char>>, input: seq<Byte>, i: nat, e: Ed, echo: seq<char>)
    requires GoodLog(log) && GoodEd(log, e) && i < |input| && (input[i] == 127 || input[i] == 8)
    ensures e.text == [] ==> Run(log, input, i, e, echo) == Run(log, input, i + 1, e, echo)
    ensures e.text != [] ==>
      Run(log, input, i, e, echo) == Run(log, input, i + 1, Ed(e.text[..|e.text| - 1], e.hist), echo + Rubout)
  {
  }

  /** A byte of 128 or more is negative as a signed char and is ignored. */
  lemma HighByteIgnored(log: seq<seq<char>>, input: seq<Byte>, i: nat, e: Ed, echo: seq<char>)
    requires GoodLog(log) && GoodEd(log, e) && i < |input| && input[i] >= 128
    ensures Run(log, input, i, e, echo) == Run(log, input, i + 1, e, echo)
  {
  }

  /** An escape sequence other than `[A` and `[B` changes nothing. */
  lemma OtherEscapeIgnored(log: seq<seq<char>>, e: Ed, b0: Byte, b1: Byte)
    requires GoodLog(log) && GoodEd(log, e)
    requires b0 != '[' as int as Byte || (b1 != 'A' as int as Byte && b1 != 'B' as int as Byte)
    ensures Escape(log, e, b0, b1) == (e, [])
  {
  }

  const Up: seq<Byte> := [27, 91, 65]
  const Down: seq<Byte> := [27, 91, 66]

  lemma EscapeUp(log: seq<seq<char>>, e: Ed)
    requires GoodLog(log) && GoodEd(log, e) && e.hist > 0
    ensures Escape(log, e, 91, 65) == (Ed(log[e.hist - 1], e.hist - 1), Erase(|e.text|) + log[e.hist - 1])
  {
    var b0: Byte, b1: Byte := 91, 65;
    assert Signed(b0) == '[' as int && Signed(b1) == 'A' as int;
  }

  lemma EscapeDownAtEnd(log: seq<seq<char>>, e: Ed)
    requires GoodLog(log) && GoodEd(log, e) && e.hist + 1 >= |log|
    ensures Escape(log, e, 91, 66) == (Ed([], |log|), Erase(|e.text|))
  {
    var b0: Byte, b1: Byte := 91, 66;
    assert Signed(b0) == '[' as int && Signed(b1) == 'B' as int;
    assert Signed(b1) != 'A' as int;
  }

  /** Up arrow on a fresh line recalls the newest entry, and Enter returns
      it. */
  lemma UpRecallsNewest(log: seq<seq<char>>, rest: seq<Byte>)
    requires GoodLog(log) && |log| > 0 && |rest| > 0 && rest[0] == 13
    ensures ReadLineSpec(log, Up + rest).line == Some(log[|log| - 1])
  {
    var input := Up + rest;
    var e := Ed(log[|log| - 1], |log| - 1);
    assert input[0] == 27 && input[1] == 91 && input[2] == 65 && input[3] == 13;
    assert Erase(0) == [];
    EscapeUp(log, Ed([], |log|));
    assert Step(log, input, 0, Ed([], |log|), []) == Go(3, e, log[|log| - 1]);
    assert Signed(input[3]) == '\r' as int;
    assert Step(log, input, 3, e, log[|log| - 1]).r.line == Some(e.text);
    assert Run(log, input, 0, Ed([], |log|), []) == Run(log, input, 3, e, log[|log| - 1]);
  }

  /** Up then Down on a fresh line leaves the line empty again. */
  lemma UpDownClears(log: seq<seq<char>>, rest: seq<Byte>)
    requires GoodLog(log) && |log| > 0 && |rest| > 0 && rest[0] == 13
    ensures ReadLineSpec(log, Up + Down + rest).line == Some([])
  {
    var input := Up + Down + rest;
    var e := Ed(log[|log| - 1], |log| - 1);
    assert input[0] == 27 && input[1] == 91 && input[2] == 65;
    assert input[3] == 27 && input[4] == 91 && input[5] == 66 && input[6] == 13;
    assert Erase(0) == [];
    var out := Erase(|log[|log| - 1]|);
    EscapeUp(log, Ed([], |log|));
    EscapeDownAtEnd(log, e);
    assert Step(log, input, 0, Ed([], |log|), []) == Go(3, e, log[|log| - 1]);
    assert Step(log, input, 3, e, log[|log| - 1]) == Go(6, Ed([], |log|), log[|log| - 1] + out);
    assert Signed(input[6]) == '\r' as int;
    assert Step(log, input, 6, Ed([], |log|), log[|log| - 1] + out).r.line == Some([]);
    assert Run(log, input, 0, Ed([], |log|), []) == Run(log, input, 3, e, log[|log| - 1]);
    assert Run(log, input, 3, e, log[|log| - 1]) == Run(log, input, 6, Ed([], |log|), log[|log| - 1] + out);
  }

  /** Up on an empty history does nothing. */
  lemma UpWithoutHistory(e: Ed)
    requires GoodEd([], e)
    ensures Escape([], e, 91, 65) == (e, [])
  {
  }

  // ------------------------------------------------------------ the editor

  /** The static 2048-byte buffer input_read_line edits in place. */
  class LineEditor {
    const buf: array<char>

    constructor ()
      ensures buf.Length == BufSize && fresh(buf)
    {
      buf := new char[BufSize](_ => NUL);
    }

    /** Rubs out the `pos` characters on screen. */
    static method EraseAll(pos: nat) returns (out: seq<char>)
      ensures out == Erase(pos)
    {
      var p: nat := pos;
      out := [];
      while p > 0
        invariant p <= pos && out == Erase(pos - p)
      {
        out := out + Rubout;
        p := p - 1;
      }
    }

    /** Copies a history entry into the buffer, as strncpy with 2047. */
    method Load(entry: seq<char>) returns (pos: nat)
      requires buf.Length == BufSize && |entry| <= 1023 && NUL !in entry
      modifies buf
      ensures pos == |entry| && buf[..pos] == entry
    {
      ContentOfMemory(entry);
      var _ := MyStrncpy(buf, Memory(entry), MaxLine);
      assert CopyLen(Memory(entry), MaxLine) == |entry|;
      assert NcpyImage(Memory(entry), MaxLine)[..|entry|] == Memory(entry)[..|entry|] == entry;
      assert buf[..|entry|] == buf[..MaxLine][..|entry|];
      pos := |entry|;
    }

    /** The escape-sequence branch: `[A` and `[B` move through the
        history and reload the buffer. */
    method HandleEscape(log: seq<seq<char>>, b0: Byte, b1: Byte, pos: nat, hist: nat)
      returns (pos': nat, hist': nat, out: seq<char>)
      requires buf.Length == BufSize && GoodLog(log) && pos <= MaxLine && hist <= |log|
      modifies buf
      ensures pos' <= MaxLine
      ensures (Ed(buf[..pos'], hist'), out) == Escape(log, Ed(old(buf[..pos]), hist), b0, b1)
    {
      pos', hist', out := pos, hist, [];
      if Signed(b0) == '[' as int && Signed(b1) == 'A' as int {
        if hist > 0 {
          hist' := hist - 1;
          var rub := EraseAll(pos);
          var entry := log[hist'];
          pos' := Load(entry);
          out := rub + entry;
        }
      } else if Signed(b0) == '[' as int && Signed(b1) == 'B' as int {
        if hist + 1 < |log| {
          hist' := hist + 1;
          var rub := EraseAll(pos);
          var entry := log[hist'];
          pos' := Load(entry);
          out := rub + entry;
        } else {
          hist' := |log|;
          out := EraseAll(pos);
          pos' := 0;
        }
      }
    }

    /** input_read_line, consuming bytes of `input` until it returns. */
    method ReadLine(log: seq<seq<char>>, input: seq<Byte>) returns (r: ReadResult)
      requires buf.Length == BufSize && GoodLog(log)
      modifies buf
      ensures r == ReadLineSpec(log, input)
      ensures r.line.Some? ==> buf[..|r.line.value|] == r.line.value && buf[|r.line.value|] == NUL
    {
      var pos: nat := 0;
      var hist: nat := |log|;
      var echo: seq<char> := [];
      var i: nat := 0;
      while i < |input|
        invariant i <= |input| && pos <= MaxLine && hist <= |log|
        invariant Run(log, input, i, Ed(buf[..pos], hist), echo) == ReadLineSpec(log, input)
        decreases |input| - i
      {
        ghost var next := Step(log, input, i, Ed(buf[..pos], hist), echo);
        var c := Signed(input[i]);
        if c == '\r' as int || c == '\n' as int {
          var line := buf[..pos];
          buf[pos] := NUL;
          assert buf[..pos] == line;
          return ReadResult(Some(line), i + 1, echo + "\n");
        } else if c == 127 || c == 8 {
          if pos > 0 {
            assert buf[..pos - 1] == buf[..pos][..pos - 1];
            pos := pos - 1;
            echo := echo + Rubout;
          }
          i := i + 1;
        } else if c == 4 {
          if pos == 0 {
            return ReadResult(None, i + 1, echo);
          }
          i := i + 1;
        } else if c == 27 {
          if i + 2 < |input| {
            var out;
            pos, hist, out := HandleEscape(log, input[i + 1], input[i + 2], pos, hist);
            echo := echo + out;
            i := i + 3;
          } else {
            i := |input|;
          }
        } else if c >= 32 && pos < MaxLine {
          ghost var before := buf[..pos];
          buf[pos] := ToChar(input[i]);
          assert buf[..pos + 1] == before + [ToChar(input[i])];
          pos := pos + 1;
          echo := echo + [ToChar(input[i])];
          i := i + 1;
        } else {
          i := i + 1;
        }
        assert next == Go(i, Ed(buf[..pos], hist), echo);
      }
      return ReadResult(None, i, echo);
    }
  }
}
