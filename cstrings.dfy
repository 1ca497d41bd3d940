/** The string helpers of src/helpers.c.

    A C string in memory is modelled as a `seq<char>` that holds a NUL
    somewhere ("memory"); its content is everything before the first NUL.
    Elsewhere in the model a C string is handed around by its content alone. */
module CStrings {
  import opened Wrappers

  const NUL: char := '\0'

  /** `s` truncated to its first `n` characters, as `strncpy(dst, s, n)`
      followed by `dst[n] = '\0'` leaves it. */
  function Trunc(s: seq<char>, n: nat): (r: seq<char>)
    ensures |r| <= n && r <= s
    ensures |s| <= n ==> r == s
  {
    if |s| <= n then s else s[..n]
  }

  /** my_strlen: the number of bytes before the first NUL. */
  function StrLen(mem: seq<char>): (n: nat)
    requires NUL in mem
    ensures n < |mem| && mem[n] == NUL
    ensures forall k :: 0 <= k < n ==> mem[k] != NUL
  {
    assert mem[0..] == mem;
    StrLenFrom(mem, 0)
  }

  /** The scan of my_strlen from position `i` on. */
  function StrLenFrom(mem: seq<char>, i: nat): (n: nat)
    requires i <= |mem| && NUL in mem[i..]
    ensures i <= n < |mem| && mem[n] == NUL
    ensures forall k :: i <= k < n ==> mem[k] != NUL
    decreases |mem| - i
  {
    if mem[i] == NUL then i
    else
      assert mem[i..] == [mem[i]] + mem[i + 1..];
      StrLenFrom(mem, i + 1)
  }

  /** The C string stored at the start of `mem`. */
  function Content(mem: seq<char>): (s: seq<char>)
    requires NUL in mem
  {
    mem[..StrLen(mem)]
  }

  /** The memory image of a C string with content `s`. */
  function Memory(s: seq<char>): (mem: seq<char>)
  {
    s + [NUL]
  }

  lemma ContentOfMemory(s: seq<char>)
    requires NUL !in s
    ensures NUL in Memory(s) && StrLen(Memory(s)) == |s| && Content(Memory(s)) == s
  {
    assert Memory(s)[|s|] == NUL;
  }

  /** my_strcmp: 0 exactly when both pointers are non-null and the strings
      are byte-equal, 1 otherwise (it is not a three-way comparison). */
  function MyStrcmp(a: Option<seq<char>>, b: Option<seq<char>>): (r: int)
    requires a.Some? ==> NUL in a.value
    requires b.Some? ==> NUL in b.value
    ensures r == 0 || r == 1
    ensures r == 0 <==> a.Some? && b.Some? && Content(a.value) == Content(b.value)
  {
    if a.None? || b.None? then 1 else StrcmpFrom(a.value, b.value, 0)
  }

  /** The loop of my_strcmp once both strings agree on their first `i` bytes. */
  function StrcmpFrom(a: seq<char>, b: seq<char>, i: nat): (r: int)
    requires NUL in a && NUL in b
    requires i <= StrLen(a) && i <= StrLen(b)
    requires a[..i] == b[..i]
    ensures r == 0 || r == 1
    ensures r == 0 <==> Content(a) == Content(b)
    decreases StrLen(a) - i
  {
    if a[i] != NUL && a[i] == b[i] then
      assert a[..i + 1] == a[..i] + [a[i]] && b[..i + 1] == b[..i] + [b[i]];
      StrcmpFrom(a, b, i + 1)
    else if a[i] == NUL && b[i] == NUL then 0
    else
      assert StrLen(a) > i && StrLen(b) > i ==> Content(a)[i] != Content(b)[i];
      1
  }

  /** The bytes my_strncmp reads are in memory: the scan from position `i`
      stops at the first mismatch or at `n`. */
  predicate ScanReadable(a: seq<char>, b: seq<char>, n: nat, i: nat)
    decreases n - i
  {
    i >= n || (i < |a| && i < |b| && (a[i] != b[i] || ScanReadable(a, b, n, i + 1)))
  }

  /** my_strncmp: 0 when either pointer is null; otherwise 0 exactly when
      the first `n` bytes agree (it does not stop at a NUL). */
  function MyStrncmp(a: Option<seq<char>>, b: Option<seq<char>>, n: nat): (r: int)
    requires a.Some? && b.Some? ==> ScanReadable(a.value, b.value, n, 0)
    ensures r == 0 || r == 1
    ensures r == 0 <==>
      a.None? || b.None? ||
      (n <= |a.value| && n <= |b.value| && a.value[..n] == b.value[..n])
  {
    if a.None? || b.None? then 0 else StrncmpFrom(a.value, b.value, n, 0)
  }

  function StrncmpFrom(a: seq<char>, b: seq<char>, n: nat, i: nat): (r: int)
    requires i <= n && i <= |a| && i <= |b| && a[..i] == b[..i]
    requires ScanReadable(a, b, n, i)
    ensures r == 0 || r == 1
    ensures r == 0 <==> n <= |a| && n <= |b| && a[..n] == b[..n]
    decreases n - i
  {
    if i == n then 0
    else if a[i] != b[i] then
      assert n <= |a| && n <= |b| ==> a[..n][i] != b[..n][i];
      1
    else
      assert a[..i + 1] == a[..i] + [a[i]] && b[..i + 1] == b[..i] + [b[i]];
      StrncmpFrom(a, b, n, i + 1)
  }

  /** `entry` is an environment entry `name=value` for `name`. */
  predicate HasKey(entry: seq<char>, name: seq<char>)
  {
    |name| < |entry| && entry[..|name|] == name && entry[|name|] == '='
  }

  /** Reference definition of an environment lookup: the value of the first
      entry whose key is `name`. */
  function EnvLookup(env: seq<seq<char>>, name: seq<char>): (r: Option<seq<char>>)
    ensures r.None? <==> forall k :: 0 <= k < |env| ==> !HasKey(env[k], name)
    ensures r.Some? ==>
      exists k :: 0 <= k < |env| && HasKey(env[k], name) &&
        r.value == env[k][|name| + 1..] && forall j :: 0 <= j < k ==> !HasKey(env[j], name)
  {
    if env == [] then None
    else if HasKey(env[0], name) then Some(env[0][|name| + 1..])
    else
      var r := EnvLookup(env[1..], name);
      assert forall k :: 1 <= k < |env| ==> env[k] == env[1..][k - 1];
      if r.Some? then
        var k' :| 0 <= k' < |env| - 1 && HasKey(env[1..][k'], name) &&
          r.value == env[1..][k'][|name| + 1..] && forall j :: 0 <= j < k' ==> !HasKey(env[1..][j], name);
        assert HasKey(env[k' + 1], name) && forall j :: 0 <= j < k' + 1 ==> !HasKey(env[j], name);
        r
      else r
  }

  lemma {:induction false} ReadableAgainstMemory(e: seq<char>, name: seq<char>, i: nat)
    requires NUL !in name && i <= |name| && i <= |e|
    ensures ScanReadable(Memory(e), Memory(name), |name|, i)
    decreases |name| - i
  {
    if i < |name| {
      if i < |e| && Memory(e)[i] == Memory(name)[i] {
        ReadableAgainstMemory(e, name, i + 1);
      } else if i == |e| {
        assert Memory(e)[i] == NUL && Memory(name)[i] == name[i];
      }
    }
  }

  /** my_getenv: NULL for a null name or a null environment; otherwise the
      text after `NAME=` in the first entry that starts with the name
      followed by `=`. */
  function MyGetenv(name: Option<seq<char>>, env: Option<seq<seq<char>>>): (r: Option<seq<char>>)
    requires name.Some? ==> NUL !in name.value
    requires env.Some? ==> forall k :: 0 <= k < |env.value| ==> NUL !in env.value[k]
    ensures name.None? || env.None? ==> r.None?
    ensures name.Some? && env.Some? ==> r == EnvLookup(env.value, name.value)
  {
    if name.None? || env.None? then None else GetenvFrom(name.value, env.value, 0)
  }

  function GetenvFrom(name: seq<char>, env: seq<seq<char>>, i: nat): (r: Option<seq<char>>)
    requires NUL !in name && i <= |env|
    requires forall k :: 0 <= k < |env| ==> NUL !in env[k]
    ensures r == EnvLookup(env[i..], name)
    decreases |env| - i
  {
    if i == |env| then None
    else
      ReadableAgainstMemory(env[i], name, 0);
      var e := Memory(env[i]);
      var cmp := MyStrncmp(Some(e), Some(Memory(name)), |name|);
      assert Memory(name)[..|name|] == name;
      assert cmp == 0 ==> |name| < |e| by {
        assert e[|env[i]|] == NUL;
        assert forall k :: 0 <= k < |name| ==> name[k] != NUL;
      }
      assert env[i..][0] == env[i] && env[i..][1..] == env[i + 1..];
      if cmp == 0 && e[|name|] == '=' then
        assert |name| < |env[i]|;
        assert env[i][..|name|] == e[..|name|];
        assert env[i][|name| + 1..] == e[|name| + 1..|env[i]|];
        Some(env[i][|name| + 1..])
      else
        GetenvFrom(name, env, i + 1)
  }

  /** my_strcpy: copies `src` up to and including its NUL into `dest` and
      returns `dest`; a null `src` returns null and leaves `dest` alone. */
  method MyStrcpy(dest: array<char>, src: Option<seq<char>>) returns (r: Option<array<char>>)
    requires src.Some? ==> NUL in src.value && StrLen(src.value) < dest.Length
    modifies dest
    ensures src.None? ==> r.None? && dest[..] == old(dest[..])
    ensures src.Some? ==> r == Some(dest)
    ensures src.Some? ==>
      var n := StrLen(src.value);
      dest[..n + 1] == src.value[..n + 1] && dest[n + 1..] == old(dest[n + 1..])
  {
    if src.None? {
      return None;
    }
    var s := src.value;
    var i := 0;
    while s[i] != NUL
      invariant 0 <= i <= StrLen(s)
      invariant dest[..i] == s[..i]
      invariant dest[i..] == old(dest[i..])
      decreases StrLen(s) - i
    {
      dest[i] := s[i];
      i := i + 1;
    }
    dest[i] := NUL;
    r := Some(dest);
  }

  /** my_strdup: a fresh buffer holding a copy of `str`, or null for a null
      argument or when the allocation (`mallocOk`) fails. */
  method MyStrdup(str: Option<seq<char>>, mallocOk: bool) returns (r: Option<array<char>>)
    requires str.Some? ==> NUL in str.value
    ensures r.Some? <==> str.Some? && mallocOk
    ensures r.Some? ==> fresh(r.value) && r.value[..] == Memory(Content(str.value))
  {
    if str.None? {
      return None;
    }
    var len := StrLen(str.value);
    if !mallocOk {
      return None;
    }
    var duplicated := new char[len + 1];
    var copied := MyStrcpy(duplicated, str);
    assert duplicated[..] == duplicated[..len + 1];
    r := Some(duplicated);
  }

  /** How many bytes of `src` strncpy copies before it starts padding. */
  function CopyLen(src: seq<char>, n: nat): (k: nat)
    requires NUL in src || n <= |src|
    ensures k <= n && k <= |src|
    ensures forall j :: 0 <= j < k ==> src[j] != NUL
    ensures k < n ==> src[k] == NUL
  {
    if NUL in src && StrLen(src) < n then StrLen(src) else n
  }

  /** The `n` bytes my_strncpy writes: `src` up to its NUL, then NUL padding. */
  function NcpyImage(src: seq<char>, n: nat): (img: seq<char>)
    requires NUL in src || n <= |src|
    ensures |img| == n
  {
    src[..CopyLen(src, n)] + seq(n - CopyLen(src, n), _ => NUL)
  }

  /** my_strncpy terminates the copy exactly when the source string is
      shorter than `n`: when `strlen(src) >= n` no NUL is written. */
  lemma StrncpyTerminator(src: seq<char>, n: nat)
    requires NUL in src
    ensures NUL in NcpyImage(src, n) <==> StrLen(src) < n
  {
    var img := NcpyImage(src, n);
    if StrLen(src) < n {
      assert img[StrLen(src)] == NUL;
    } else {
      assert forall j :: 0 <= j < n ==> img[j] == src[j];
    }
  }

  /** my_strncpy: writes exactly `n` bytes into `dst` (`src` up to its NUL,
      then NUL padding) and leaves `dst[n..]` untouched. */
  method MyStrncpy(dst: array<char>, src: seq<char>, n: nat) returns (r: array<char>)
    requires n <= dst.Length
    requires NUL in src || n <= |src|
    modifies dst
    ensures r == dst
    ensures dst[..n] == NcpyImage(src, n)
    ensures dst[n..] == old(dst[n..])
  {
    var i := CopyBytes(dst, src, n);
    PadNuls(dst, src, n, i);
    r := dst;
  }

  /** The copying loop of my_strncpy. */
  method CopyBytes(dst: array<char>, src: seq<char>, n: nat) returns (i: nat)
    requires n <= dst.Length
    requires NUL in src || n <= |src|
    modifies dst
    ensures i == CopyLen(src, n)
    ensures forall j :: 0 <= j < i ==> dst[j] == src[j]
    ensures forall j :: i <= j < dst.Length ==> dst[j] == old(dst[j])
  {
    i := 0;
    while i < n && src[i] != NUL
      invariant 0 <= i <= CopyLen(src, n)
      invariant forall j :: 0 <= j < i ==> dst[j] == src[j]
      invariant forall j :: i <= j < dst.Length ==> dst[j] == old(dst[j])
    {
      dst[i] := src[i];
      i := i + 1;
    }
  }

  /** The padding loop of my_strncpy. */
  method PadNuls(dst: array<char>, ghost src: seq<char>, n: nat, i0: nat)
    requires n <= dst.Length
    requires NUL in src || n <= |src|
    requires i0 == CopyLen(src, n)
    requires forall j :: 0 <= j < i0 ==> dst[j] == src[j]
    modifies dst
    ensures dst[..n] == NcpyImage(src, n)
    ensures dst[n..] == old(dst[n..])
  {
    ghost var img := NcpyImage(src, n);
    assert forall j :: 0 <= j < i0 ==> img[j] == src[j];
    var i := i0;
    while i < n
      invariant i0 <= i <= n
      invariant forall j :: 0 <= j < i ==> dst[j] == img[j]
      invariant forall j :: n <= j < dst.Length ==> dst[j] == old(dst[j])
    {
      dst[i] := NUL;
      i := i + 1;
    }
    assert dst[..n] == img;
    assert dst[n..] == old(dst[n..]) by {
      assert forall j :: 0 <= j < dst.Length - n ==> dst[n..][j] == dst[n + j];
    }
  }
}
