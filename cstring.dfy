/** C strings held in fixed-size `char` buffers, as the overlay text buffers
    and the mouse-mode pending buffer are.

    A C string is read up to its first NUL. A `seq<char>` handed in by a caller
    (a `const char*` argument) is read up to its first NUL or up to its end,
    whichever comes first. */
module CStrings {

  const NUL: char := '\0'

  /** Length of the C string held in `s`: the index of its first NUL, or |s|
      when `s` holds none (strlen, bounded by the sequence). */
  function CLen(s: seq<char>): (n: nat)
    ensures n <= |s|
    ensures forall i :: 0 <= i < n ==> s[i] != NUL
    ensures n < |s| ==> s[n] == NUL
    decreases |s|
  {
    if |s| == 0 || s[0] == NUL then 0
    else
      var m := CLen(s[1..]);
      assert forall i :: 1 <= i < m + 1 ==> s[i] == s[1..][i - 1];
      1 + m
  }

  /** The characters of the C string held in `s`, without its terminator. */
  function CStr(s: seq<char>): seq<char>
  {
    s[..CLen(s)]
  }

  /** True when `s` holds a terminated C string: a NUL inside the buffer. */
  predicate Terminated(s: seq<char>)
  {
    CLen(s) < |s|
  }

  /** At most the first `k` characters of `s`. */
  function Truncated(s: seq<char>, k: nat): seq<char>
  {
    if |s| <= k then s else s[..k]
  }

  /** The buffer `d` after `strncpy(d, src, n)`: the first `n` cells receive the
      characters of the C string in `src`, padded with NULs once it ends; the
      cells from `n` on keep their contents. */
  function StrNCpy(d: seq<char>, src: seq<char>, n: nat): seq<char>
  {
    seq(|d|, i requires 0 <= i < |d| =>
      if i < n then (if i < CLen(src) then src[i] else NUL) else d[i])
  }

  /** The buffer `d` after `strncpy(d, src, n)` followed by storing a NUL into
      its last cell: the idiom every writer of the overlay buffers uses. */
  function CopyTerminated(d: seq<char>, src: seq<char>, n: nat): seq<char>
    requires |d| > 0
  {
    StrNCpy(d, src, n)[|d| - 1 := NUL]
  }

  /** The C string length of `s` is determined by where its first NUL is. */
  lemma CLenAt(s: seq<char>, m: nat)
    requires m <= |s|
    requires forall i :: 0 <= i < m ==> s[i] != NUL
    requires m < |s| ==> s[m] == NUL
    ensures CLen(s) == m
  {
  }

  /** A bounded, terminated copy into a buffer of capacity |d| stores the
      first |d| - 1 characters of the source string, or all of them when it
      is shorter, and leaves the buffer terminated in its last cell. This
      holds for both copy lengths the overlay code uses: the whole buffer
      (`sizeof(text)`) and one less (`sizeof(text) - 1`). */
  lemma CopyTerminatedStoresPrefix(d: seq<char>, src: seq<char>, n: nat)
    requires |d| > 0
    requires |d| - 1 <= n <= |d|
    ensures |CopyTerminated(d, src, n)| == |d|
    ensures CopyTerminated(d, src, n)[|d| - 1] == NUL
    ensures Terminated(CopyTerminated(d, src, n))
    ensures CStr(CopyTerminated(d, src, n)) == Truncated(CStr(src), |d| - 1)
  {
    var r := CopyTerminated(d, src, n);
    var k := CLen(src);
    var m := if k < |d| - 1 then k else |d| - 1;
    forall i | 0 <= i < m
      ensures r[i] == src[i] && r[i] != NUL
    {
    }
    if m < |d| - 1 {
      assert r[m] == NUL;
    }
    CLenAt(r, m);
    assert CStr(r) == r[..m];
    assert r[..m] == src[..m];
    if k <= |d| - 1 {
      assert Truncated(CStr(src), |d| - 1) == src[..k];
    } else {
      assert Truncated(CStr(src), |d| - 1) == src[..k][..|d| - 1] == src[..m];
    }
  }

  /** Writing NUL into the first cell empties the C string, whatever the rest
      of the buffer holds. */
  lemma ClearFirstEmpties(d: seq<char>)
    requires |d| > 0
    ensures CStr(d[0 := NUL]) == []
  {
    CLenAt(d[0 := NUL], 0);
  }

  /** `strncpy(dst, src, n)` on an array, character by character: copy until
      the source string ends or `n` cells are written, then pad with NULs up
      to `n`. */
  method StrNCopy(dst: array<char>, src: seq<char>, n: nat)
    requires n <= dst.Length
    modifies dst
    ensures dst[..] == StrNCpy(old(dst[..]), src, n)
  {
    var i := 0;
    while i < n && i < |src| && src[i] != NUL
      invariant 0 <= i <= n && i <= CLen(src)
      invariant forall j :: 0 <= j < i ==> dst[j] == src[j]
      invariant forall j :: i <= j < dst.Length ==> dst[j] == old(dst[j])
    {
      dst[i] := src[i];
      i := i + 1;
    }
    ghost var copied := i;
    assert copied == n || copied == CLen(src);
    while i < n
      invariant copied <= i <= n
      invariant forall j :: 0 <= j < copied ==> dst[j] == src[j]
      invariant forall j :: copied <= j < i ==> dst[j] == NUL
      invariant forall j :: i <= j < dst.Length ==> dst[j] == old(dst[j])
    {
      dst[i] := NUL;
      i := i + 1;
    }
    assert forall j :: 0 <= j < dst.Length ==> dst[..][j] == StrNCpy(old(dst[..]), src, n)[j];
  }

  /** `strncpy(dst, src, n)` followed by a NUL stored into the last cell of
      `dst`, as every writer of the overlay buffers does. */
  method CopyTerminatedInto(dst: array<char>, src: seq<char>, n: nat)
    requires 0 < dst.Length && n <= dst.Length
    modifies dst
    ensures dst[..] == CopyTerminated(old(dst[..]), src, n)
  {
    StrNCopy(dst, src, n);
    dst[dst.Length - 1] := NUL;
  }
}
