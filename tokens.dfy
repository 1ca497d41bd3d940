/** The C library's `strtok`, as the core uses it: a token is a maximal run
    of bytes that are not delimiters; leading delimiters are skipped and an
    empty remainder yields no token. `strtok` writes a NUL over the
    delimiter that ends a token and resumes after it. */
module Tokens {
  import opened Wrappers

  /** The first index at or after `i` that is not a delimiter, or `|s|`. */
  function SkipDelims(s: seq<char>, i: nat, delims: seq<char>): (j: nat)
    requires i <= |s|
    ensures i <= j <= |s|
    ensures forall k :: i <= k < j ==> s[k] in delims
    ensures j < |s| ==> s[j] !in delims
    decreases |s| - i
  {
    if i == |s| || s[i] !in delims then i else SkipDelims(s, i + 1, delims)
  }

  /** The first index at or after `i` that is a delimiter, or `|s|`. */
  function TokenEnd(s: seq<char>, i: nat, delims: seq<char>): (j: nat)
    requires i <= |s|
    ensures i <= j <= |s|
    ensures forall k :: i <= k < j ==> s[k] !in delims
    ensures j < |s| ==> s[j] in delims
    decreases |s| - i
  {
    if i == |s| || s[i] in delims then i else TokenEnd(s, i + 1, delims)
  }

  /** One `strtok` call resuming at `i`: the token and the resume position. */
  function NextToken(s: seq<char>, i: nat, delims: seq<char>): (r: Option<(seq<char>, nat)>)
    requires i <= |s|
    ensures r.Some? ==> i < r.value.1 <= |s|
  {
    var a := SkipDelims(s, i, delims);
    if a == |s| then None
    else
      var b := TokenEnd(s, a, delims);
      Some((s[a..b], if b == |s| then b else b + 1))
  }

  /** Every token `strtok` returns for `s` from position `i` on. */
  function TokensFrom(s: seq<char>, i: nat, delims: seq<char>): seq<seq<char>>
    requires i <= |s|
    decreases |s| - i
  {
    match NextToken(s, i, delims)
    case None => []
    case Some((tok, j)) => [tok] + TokensFrom(s, j, delims)
  }

  function Tokens(s: seq<char>, delims: seq<char>): seq<seq<char>>
  {
    TokensFrom(s, 0, delims)
  }

  /** A token is never empty and never holds a delimiter. */
  predicate IsToken(t: seq<char>, delims: seq<char>)
  {
    t != [] && forall k :: 0 <= k < |t| ==> t[k] !in delims
  }

  lemma {:induction false} TokensFromAreTokens(s: seq<char>, i: nat, delims: seq<char>)
    requires i <= |s|
    ensures forall k :: 0 <= k < |TokensFrom(s, i, delims)| ==> IsToken(TokensFrom(s, i, delims)[k], delims)
    decreases |s| - i
  {
    match NextToken(s, i, delims)
    case None =>
    case Some((tok, j)) =>
      TokensFromAreTokens(s, j, delims);
  }

  lemma TokensAreTokens(s: seq<char>, delims: seq<char>)
    ensures forall k :: 0 <= k < |Tokens(s, delims)| ==> IsToken(Tokens(s, delims)[k], delims)
  {
    TokensFromAreTokens(s, 0, delims);
  }

  /** `strtok` with a delimiter set that `s` does not contain returns `s`
      itself as the only token (unless `s` is empty). */
  lemma TokensWithoutDelims(s: seq<char>, delims: seq<char>)
    requires forall k :: 0 <= k < |s| ==> s[k] !in delims
    ensures Tokens(s, delims) == if s == [] then [] else [s]
  {
    if s != [] {
      assert SkipDelims(s, 0, delims) == 0;
      assert TokenEnd(s, 0, delims) == |s|;
      assert s[0..|s|] == s;
      assert NextToken(s, 0, delims) == Some((s, |s|));
      assert NextToken(s, |s|, delims) == None;
      assert TokensFrom(s, |s|, delims) == [];
      assert TokensFrom(s, 0, delims) == [s] + TokensFrom(s, |s|, delims);
    } else {
      assert NextToken(s, 0, delims) == None;
    }
  }

  /** Reference definition of a token: a non-empty run `s[a..b]` free of
      delimiters, with a delimiter (or the end of `s`) on either side. */
  predicate Occurs(s: seq<char>, a: int, b: int, delims: seq<char>)
  {
    0 <= a < b <= |s| &&
    (a == 0 || s[a - 1] in delims) && (b == |s| || s[b] in delims) &&
    forall k :: a <= k < b ==> s[k] !in delims
  }

  lemma {:induction false} TokensFromOccur(s: seq<char>, i: nat, delims: seq<char>, t: seq<char>)
    requires i <= |s| && (i == 0 || s[i - 1] in delims)
    ensures t in TokensFrom(s, i, delims) <==>
      exists a, b :: i <= a && Occurs(s, a, b, delims) && s[a..b] == t
    decreases |s| - i
  {
    var a' := SkipDelims(s, i, delims);
    if a' == |s| {
      assert NextToken(s, i, delims).None?;
      assert forall a, b :: i <= a && Occurs(s, a, b, delims) ==> s[a] in delims;
    } else {
      var b' := TokenEnd(s, a', delims);
      var j := if b' == |s| then b' else b' + 1;
      assert NextToken(s, i, delims) == Some((s[a'..b'], j));
      assert TokensFrom(s, i, delims) == [s[a'..b']] + TokensFrom(s, j, delims);
      assert Occurs(s, a', b', delims);
      if j == b' + 1 {
        TokensFromOccur(s, j, delims, t);
      } else {
        assert NextToken(s, j, delims).None?;
      }
      if exists a, b :: i <= a && Occurs(s, a, b, delims) && s[a..b] == t {
        var a, b :| i <= a && Occurs(s, a, b, delims) && s[a..b] == t;
        if a == a' {
          assert b == b';
        } else {
          assert s[a] !in delims && a' <= a;
          assert a > 0 && s[a - 1] in delims;
          assert j <= a;
        }
      }
    }
  }

  /** `t` is among strtok's tokens of `s` exactly when it occurs in `s` as a
      maximal delimiter-free run. */
  lemma TokensOccur(s: seq<char>, delims: seq<char>, t: seq<char>)
    ensures t in Tokens(s, delims) <==>
      exists a, b :: Occurs(s, a, b, delims) && s[a..b] == t
  {
    TokensFromOccur(s, 0, delims, t);
  }
  /** Scanning from inside `p + s` is scanning `s`: positions shift by `|p|`. */
  lemma {:induction false} SkipDelimsShift(p: seq<char>, s: seq<char>, i: nat, delims: seq<char>)
    requires i <= |s|
    ensures SkipDelims(p + s, |p| + i, delims) == |p| + SkipDelims(s, i, delims)
    decreases |s| - i
  {
    if i < |s| {
      assert (p + s)[|p| + i] == s[i];
      if s[i] in delims {
        SkipDelimsShift(p, s, i + 1, delims);
      }
    }
  }

  lemma {:induction false} TokenEndShift(p: seq<char>, s: seq<char>, i: nat, delims: seq<char>)
    requires i <= |s|
    ensures TokenEnd(p + s, |p| + i, delims) == |p| + TokenEnd(s, i, delims)
    decreases |s| - i
  {
    if i < |s| {
      assert (p + s)[|p| + i] == s[i];
      if s[i] !in delims {
        TokenEndShift(p, s, i + 1, delims);
      }
    }
  }

  /** `strtok` resumed inside `p + s` at `|p| + i` returns the tokens of
      `s` from `i` on. */
  lemma {:induction false} TokensFromShift(p: seq<char>, s: seq<char>, i: nat, delims: seq<char>)
    requires i <= |s|
    ensures TokensFrom(p + s, |p| + i, delims) == TokensFrom(s, i, delims)
    decreases |s| - i
  {
    NextTokenShift(p, s, i, delims);
    var r := NextToken(s, i, delims);
    if r.None? {
      SameNone(p + s, |p| + i, s, i, delims);
    } else {
      TokensFromShift(p, s, r.value.1, delims);
      SameNext(p + s, |p| + i, s, i, delims, r.value.0, |p| + r.value.1, r.value.1);
    }
  }

  /** Two scans that both find nothing more have the same tokens. */
  lemma SameNone(u: seq<char>, k: nat, s: seq<char>, i: nat, delims: seq<char>)
    requires k <= |u| && i <= |s| && NextToken(u, k, delims).None? && NextToken(s, i, delims).None?
    ensures TokensFrom(u, k, delims) == TokensFrom(s, i, delims)
  {
  }

  /** Two scans that find the same next token and agree after it agree. */
  lemma SameNext(u: seq<char>, k: nat, s: seq<char>, i: nat, delims: seq<char>, t: seq<char>, k': nat, i': nat)
    requires k <= |u| && i <= |s|
    requires NextToken(u, k, delims) == Some((t, k')) && NextToken(s, i, delims) == Some((t, i'))
    requires TokensFrom(u, k', delims) == TokensFrom(s, i', delims)
    ensures TokensFrom(u, k, delims) == TokensFrom(s, i, delims)
  {
  }

  lemma NextTokenShift(p: seq<char>, s: seq<char>, i: nat, delims: seq<char>)
    requires i <= |s|
    ensures var r, r' := NextToken(s, i, delims), NextToken(p + s, |p| + i, delims);
      r'.None? == r.None? && (r.Some? ==> r'.value.0 == r.value.0 && r'.value.1 == |p| + r.value.1)
  {
    SkipDelimsShift(p, s, i, delims);
    var a := SkipDelims(s, i, delims);
    if a < |s| {
      TokenEndShift(p, s, a, delims);
      var b := TokenEnd(s, a, delims);
      assert (p + s)[|p| + a..|p| + b] == s[a..b];
    }
  }

  /** Leading delimiters make no difference to the tokens. */
  lemma {:induction false} TokensAfterDelims(s: seq<char>, i: nat, delims: seq<char>)
    requires i <= |s| && forall k :: 0 <= k < i ==> s[k] in delims
    ensures Tokens(s, delims) == Tokens(s[i..], delims)
  {
    SkipDelimsFrom(s, 0, i, delims);
    assert NextToken(s, 0, delims) == NextToken(s, i, delims);
    assert TokensFrom(s, 0, delims) == TokensFrom(s, i, delims);
    PrefixSuffix(s, i);
    TokensFromShift(s[..i], s[i..], 0, delims);
  }

  lemma PrefixSuffix(s: seq<char>, i: nat)
    requires i <= |s|
    ensures s[..i] + s[i..] == s && |s[..i]| == i
  {
  }

  lemma {:induction false} SkipDelimsFrom(s: seq<char>, j: nat, i: nat, delims: seq<char>)
    requires j <= i <= |s| && forall k :: j <= k < i ==> s[k] in delims
    ensures SkipDelims(s, j, delims) == SkipDelims(s, i, delims)
    decreases i - j
  {
    if j < i {
      SkipDelimsFrom(s, j + 1, i, delims);
    }
  }

  /** A token followed by a delimiter is the first token, and `strtok`
      resumes after that delimiter. */
  lemma FirstToken(w: seq<char>, d: char, rest: seq<char>, delims: seq<char>)
    requires IsToken(w, delims) && d in delims
    ensures Tokens(w + [d] + rest, delims) == [w] + Tokens(rest, delims)
  {
    var s := w + [d] + rest;
    assert s[0] == w[0];
    assert SkipDelims(s, 0, delims) == 0;
    var e := TokenEnd(s, 0, delims);
    assert s[|w|] == d;
    TokenEndAt(s, 0, |w|, delims);
    assert s[0..e] == w;
    assert NextToken(s, 0, delims) == Some((w, |w| + 1));
    TokensFromShift(w + [d], rest, 0, delims);
  }

  /** `TokenEnd` is the first delimiter at or after `i`. */
  lemma {:induction false} TokenEndAt(s: seq<char>, i: nat, e: nat, delims: seq<char>)
    requires i <= e <= |s| && (forall k :: i <= k < e ==> s[k] !in delims) && (e == |s| || s[e] in delims)
    ensures TokenEnd(s, i, delims) == e
    decreases e - i
  {
    if i < e {
      TokenEndAt(s, i + 1, e, delims);
    }
  }

  /** A token alone is the only token. */
  lemma OnlyToken(w: seq<char>, delims: seq<char>)
    requires IsToken(w, delims)
    ensures Tokens(w, delims) == [w]
  {
    TokensWithoutDelims(w, delims);
  }
}
