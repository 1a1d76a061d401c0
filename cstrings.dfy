/**
 Zero-terminated strings in fixed-capacity character buffers: the bounded copy,
 lower-casing copy, bounded append and case-insensitive search of Core/Core.cpp.

 A `const char *` argument is modelled by the characters it points at, `s`; the
 C string it denotes is `CStr(s)`, the characters before the first NUL (a
 terminator is taken to follow the last element of `s`). A `char *` destination
 is an `array<char>` together with an offset into it.
 */
module CStrings {
  import opened Wrappers

  const NUL: char := '\0'

  function Min(a: int, b: int): int { if a <= b then a else b }

  /** The first n characters of s, or all of s when it is shorter. */
  function Cut(s: seq<char>, n: nat): (r: seq<char>)
    ensures r <= s && |r| == Min(|s|, n)
  {
    s[..Min(|s|, n)]
  }

  /** Character i of the string whose characters are s; past the end the terminator is read. */
  function At(s: seq<char>, i: nat): char
  {
    if i < |s| then s[i] else NUL
  }

  /** strlen: the index of the first NUL of s (|s| when there is none). */
  function ZLen(s: seq<char>): (n: nat)
    ensures n <= |s|
    ensures forall i :: 0 <= i < n ==> s[i] != NUL
    ensures n < |s| ==> s[n] == NUL
  {
    if s == [] || s[0] == NUL then 0
    else
      var n := 1 + ZLen(s[1..]);
      assert forall i :: 1 <= i < n ==> s[i] == s[1..][i - 1];
      n
  }

  /** The C string held in s. */
  function CStr(s: seq<char>): (r: seq<char>)
    ensures r <= s && NUL !in r
    ensures |r| < |s| ==> s[|r|] == NUL
  {
    s[..ZLen(s)]
  }

  /** The string in s is s[..n] exactly when s[..n] holds no NUL and s ends or has a NUL at n. */
  lemma CStrIs(s: seq<char>, n: nat)
    requires n <= |s| && NUL !in s[..n]
    requires n == |s| || s[n] == NUL
    ensures CStr(s) == s[..n]
  {
  }

  /** The buffer b with w written over it from index off. */
  function Splice(b: seq<char>, off: nat, w: seq<char>): (r: seq<char>)
    requires off + |w| <= |b|
    ensures |r| == |b|
    ensures forall i :: 0 <= i < |w| ==> r[off + i] == w[i]
    ensures forall i :: 0 <= i < |b| && !(off <= i < off + |w|) ==> r[i] == b[i]
  {
    b[..off] + w + b[off + |w|..]
  }

  /** A buffer that agrees with b outside [off, off+|w|) and with w inside it is the splice. */
  lemma SpliceOf(a: seq<char>, b: seq<char>, off: nat, w: seq<char>)
    requires |a| == |b| && off + |w| <= |b|
    requires forall k :: 0 <= k < |w| ==> a[off + k] == w[k]
    requires forall k :: 0 <= k < |b| && !(off <= k < off + |w|) ==> a[k] == b[k]
    ensures a == Splice(b, off, w)
  {
    var r := Splice(b, off, w);
    forall k | 0 <= k < |a| ensures a[k] == r[k] {
      if off <= k < off + |w| {
        assert a[off + (k - off)] == w[k - off];
      }
    }
  }

  /** A NUL-free t followed by a terminator at r[off..] is the string read there. */
  lemma ReadsAt(r: seq<char>, off: nat, t: seq<char>)
    requires off + |t| < |r| && r[off + |t|] == NUL && NUL !in t
    requires forall i :: 0 <= i < |t| ==> r[off + i] == t[i]
    ensures CStr(r[off..]) == t
  {
    assert r[off..][..|t|] == t;
    CStrIs(r[off..], |t|);
  }

  lemma SpliceExtend(b: seq<char>, off: nat, w: seq<char>, c: char)
    requires off + |w| < |b|
    ensures Splice(b, off, w)[off + |w| := c] == Splice(b, off, w + [c])
  {
    var l := Splice(b, off, w)[off + |w| := c];
    var r := Splice(b, off, w + [c]);
    assert forall i :: 0 <= i < |b| ==> l[i] == r[i] by {
      forall i | 0 <= i < |b| ensures l[i] == r[i] {
        if off <= i < off + |w| {
          assert l[i] == Splice(b, off, w)[off..off + |w|][i - off];
          assert r[i] == r[off..off + |w| + 1][i - off];
        } else if i == off + |w| {
          assert r[i] == r[off..off + |w| + 1][|w|];
        }
      }
    }
  }

  /** strcpy / memcpy of a known string: writes w at dst[off..]. */
  method WriteAt(dst: array<char>, off: nat, w: seq<char>)
    requires off + |w| <= dst.Length
    modifies dst
    ensures dst[..] == Splice(old(dst[..]), off, w)
  {
    forall i | off <= i < off + |w| {
      dst[i] := w[i - off];
    }
    assert dst[..] == Splice(old(dst[..]), off, w) by {
      var r := Splice(old(dst[..]), off, w);
      forall i | 0 <= i < dst.Length ensures dst[i] == r[i] {
        if off <= i < off + |w| {
          assert r[i] == r[off..off + |w|][i - off];
        }
      }
    }
  }

  /** What appStrncpyz stores: the source string cut to count-1 characters, then a terminator. */
  function CopyZ(src: seq<char>, count: int): (w: seq<char>)
    ensures count <= 0 <==> w == []
  {
    if count <= 0 then [] else Cut(CStr(src), count - 1) + [NUL]
  }

  /** With room, appStrncpyz writes at most count characters, of which only the last is a
      terminator, and it stores the string of src whole when it fits. */
  lemma CopyZTerminated(src: seq<char>, count: int)
    requires count > 0
    ensures var w := CopyZ(src, count);
      && 0 < |w| <= count && w[|w| - 1] == NUL && NUL !in w[..|w| - 1]
      && (|CStr(src)| < count ==> w == CStr(src) + [NUL])
  {
    var w := CopyZ(src, count);
    assert w[..|w| - 1] == Cut(CStr(src), count - 1);
  }

  /** appStrncpyz with no room (count <= 0) writes nothing. */
  lemma CopyZNothing(b: seq<char>, off: nat, src: seq<char>, count: int)
    requires count <= 0 && off <= |b|
    ensures CopyZ(src, count) == [] && Splice(b, off, CopyZ(src, count)) == b
  {
    assert Splice(b, off, []) == b;
  }

  /** appStrncpyz never stores more than count characters, and the destination then holds
      the source string cut to count-1 characters. */
  lemma CopyZMeaning(b: seq<char>, off: nat, src: seq<char>, count: int)
    requires count > 0 && off + |CopyZ(src, count)| <= |b|
    ensures |CopyZ(src, count)| <= count
    ensures CStr(Splice(b, off, CopyZ(src, count))[off..]) == Cut(CStr(src), count - 1)
  {
    var c := Cut(CStr(src), count - 1);
    var w := CopyZ(src, count);
    assert w == c + [NUL];
    var r := Splice(b, off, w);
    assert r[off + |c|] == w[|c|];
    forall i | 0 <= i < |c| ensures r[off + i] == c[i] {
      assert w[i] == c[i];
    }
    ReadsAt(r, off, c);
  }

  /** appStrncpyz: copies src into dst[off..] within count characters, always terminated. */
  method Strncpyz(dst: array<char>, off: nat, src: seq<char>, count: int)
    requires off + |CopyZ(src, count)| <= dst.Length
    modifies dst
    ensures dst[..] == Splice(old(dst[..]), off, CopyZ(src, count))
  {
    if count <= 0 {
      assert dst[..] == Splice(old(dst[..]), off, []);
      return;
    }
    ghost var s := CStr(src);
    ghost var w := CopyZ(src, count);
    assert w == Cut(s, count - 1) + [NUL];
    var n := count;  // the source's count, decremented before each character
    var i := 0;
    while true
      invariant 0 <= i <= |s| && i < count && n == count - i
      invariant forall k :: 0 <= k < i ==> dst[off + k] == s[k]
      invariant forall k :: 0 <= k < dst.Length && !(off <= k < off + i) ==> dst[k] == old(dst[k])
      decreases n
    {
      n := n - 1;
      if n == 0 {
        dst[off + i] := NUL;
        SpliceOf(dst[..], old(dst[..]), off, w);
        return;
      }
      var c := At(src, i);
      dst[off + i] := c;
      if c == NUL {
        assert i == |s|;
        SpliceOf(dst[..], old(dst[..]), off, w);
        return;
      }
      i := i + 1;
    }
  }

  /** ASCII tolower. */
  function Lower(c: char): char
  {
    if 'A' <= c <= 'Z' then (c as int + 32) as char else c
  }

  function LowerStr(s: seq<char>): (r: seq<char>)
    ensures |r| == |s| && forall i :: 0 <= i < |s| ==> r[i] == Lower(s[i])
  {
    if s == [] then [] else [Lower(s[0])] + LowerStr(s[1..])
  }

  /** Lower-casing keeps the terminator where it was, so it commutes with reading the C string. */
  lemma LowerKeepsTerminator(s: seq<char>)
    ensures CStr(LowerStr(s)) == LowerStr(CStr(s))
  {
    var n := |CStr(s)|;
    assert LowerStr(s)[..n] == LowerStr(CStr(s));
    assert n < |s| ==> LowerStr(s)[n] == NUL;
    CStrIs(LowerStr(s), n);
  }

  /** appStrncpylwr: as appStrncpyz, storing each character lower-cased. */
  method Strncpylwr(dst: array<char>, off: nat, src: seq<char>, count: int)
    requires off + |CopyZ(LowerStr(src), count)| <= dst.Length
    modifies dst
    ensures dst[..] == Splice(old(dst[..]), off, CopyZ(LowerStr(src), count))
  {
    if count <= 0 {
      assert dst[..] == Splice(old(dst[..]), off, []);
      return;
    }
    ghost var ls := LowerStr(src);
    ghost var s := CStr(ls);
    ghost var w := CopyZ(ls, count);
    assert w == Cut(s, count - 1) + [NUL];
    var n := count;  // the source's count, decremented before each character
    var i := 0;
    while true
      invariant 0 <= i <= |s| && i < count && n == count - i
      invariant forall k :: 0 <= k < i ==> dst[off + k] == s[k]
      invariant forall k :: 0 <= k < dst.Length && !(off <= k < off + i) ==> dst[k] == old(dst[k])
      decreases n
    {
      n := n - 1;
      if n == 0 {
        dst[off + i] := NUL;
        SpliceOf(dst[..], old(dst[..]), off, w);
        return;
      }
      var c := Lower(At(src, i));
      assert c == At(ls, i);
      dst[off + i] := c;
      if c == NUL {
        assert i == |s|;
        SpliceOf(dst[..], old(dst[..]), off, w);
        return;
      }
      i := i + 1;
    }
  }

  /** What appStrcatn leaves in a buffer b of which count characters belong to the string. */
  function Catn(b: seq<char>, count: int, src: seq<char>): (r: seq<char>)
    requires NUL in b && count <= |b|
    ensures |r| == |b|
  {
    var p := ZLen(b);
    if count - p > 1 then Splice(b, p, CopyZ(src, count - p)) else b
  }

  /** appStrcatn keeps the buffer's size, touches nothing at or past count, and changes
      nothing when at most one character of the capacity is left. */
  lemma CatnFrame(b: seq<char>, count: int, src: seq<char>)
    requires NUL in b && count <= |b|
    ensures |Catn(b, count, src)| == |b|
    ensures forall i :: 0 <= i < |b| && count <= i ==> Catn(b, count, src)[i] == b[i]
    ensures count - |CStr(b)| <= 1 ==> Catn(b, count, src) == b
  {
    var p := ZLen(b);
    if count - p > 1 {
      assert |CopyZ(src, count - p)| <= count - p;
    }
  }

  /** Writing a NUL-free c and a terminator just after the NUL-free b[..p] extends b's string. */
  lemma AppendAt(b: seq<char>, p: nat, c: seq<char>)
    requires p + |c| < |b| && NUL !in b[..p] && NUL !in c
    ensures CStr(Splice(b, p, c + [NUL])) == b[..p] + c
  {
    var w := c + [NUL];
    var r := Splice(b, p, w);
    var t := b[..p] + c;
    assert r[p + |c|] == w[|c|];
    forall i | 0 <= i < |t| ensures r[i] == t[i] {
      if i >= p {
        assert r[p + (i - p)] == w[i - p];
      }
    }
    ReadsAt(r, 0, t);
    assert r[0..] == r;
  }

  /** When there is room, appStrcatn appends as much of src as leaves room for the
      terminator within count characters, and the buffer stays terminated. */
  lemma CatnAppends(b: seq<char>, count: int, src: seq<char>)
    requires NUL in b && count <= |b|
    requires count - |CStr(b)| > 1
    ensures CStr(Catn(b, count, src)) == CStr(b) + Cut(CStr(src), count - |CStr(b)| - 1)
    ensures |CStr(Catn(b, count, src))| < count
    ensures NUL in Catn(b, count, src)
  {
    var p := ZLen(b);
    var c := Cut(CStr(src), count - p - 1);
    assert CopyZ(src, count - p) == c + [NUL];
    AppendAt(b, p, c);
    var r := Catn(b, count, src);
    assert r[|CStr(r)|] == NUL;
  }

  /** appStrcatn: appends src to the string in dst, whose capacity is count characters. */
  method Strcatn(dst: array<char>, count: int, src: seq<char>)
    requires NUL in dst[..] && count <= dst.Length
    modifies dst
    ensures dst[..] == Catn(old(dst[..]), count, src)
  {
    var p := ZLen(dst[..]);  // strchr(dst, 0)
    var maxLen := count - p;
    if maxLen > 1 {
      Strncpyz(dst, p, src, maxLen);
    }
  }

  /** The needle occurs in hay at index j. */
  predicate OccursAt(hay: seq<char>, needle: seq<char>, j: nat)
  {
    j + |needle| <= |hay| && hay[j..j + |needle|] == needle
  }

  /** strstr from index i: the first occurrence at or after i. */
  function FindFrom(hay: seq<char>, needle: seq<char>, i: nat): (r: Option<nat>)
    decreases |hay| - i
    ensures r.Some? ==> i <= r.value && OccursAt(hay, needle, r.value)
    ensures r.Some? ==> forall j :: i <= j < r.value ==> !OccursAt(hay, needle, j)
    ensures r.None? ==> forall j :: i <= j ==> !OccursAt(hay, needle, j)
  {
    if i + |needle| > |hay| then None
    else if hay[i..i + |needle|] == needle then Some(i)
    else FindFrom(hay, needle, i + 1)
  }

  /** Size of appStristr's two local buffers. */
  const StristrBufSize: int := 1024

  /** What appStristr's local buffer holds for s: s lower-cased, cut to 1023 characters. */
  function Folded(s: seq<char>): (r: seq<char>)
    ensures r == Cut(LowerStr(CStr(s)), StristrBufSize - 1)
  {
    LowerKeepsTerminator(s);
    CopyZMeaning(CopyZ(LowerStr(s), StristrBufSize), 0, LowerStr(s), StristrBufSize);
    assert Splice(CopyZ(LowerStr(s), StristrBufSize), 0, CopyZ(LowerStr(s), StristrBufSize))
      == CopyZ(LowerStr(s), StristrBufSize);
    CStr(CopyZ(LowerStr(s), StristrBufSize))
  }

  /** appStristr: the offset into s1 of the first case-insensitive occurrence of s2 within
      the first 1023 characters of each, or None (the null pointer). */
  function Stristr(s1: seq<char>, s2: seq<char>): (r: Option<nat>)
    ensures r.Some? ==> r.value <= |CStr(s1)|
    ensures r.Some? ==> OccursAt(Folded(s1), Folded(s2), r.value)
    ensures r.Some? ==> forall j :: 0 <= j < r.value ==> !OccursAt(Folded(s1), Folded(s2), j)
    ensures r.None? <==> forall j :: 0 <= j ==> !OccursAt(Folded(s1), Folded(s2), j)
  {
    FindFrom(Folded(s1), Folded(s2), 0)
  }

  /** For strings shorter than the local buffers, appStristr finds the first position where
      s2 matches s1 ignoring ASCII case. */
  lemma StristrShort(s1: seq<char>, s2: seq<char>, k: nat)
    requires |CStr(s1)| < StristrBufSize && |CStr(s2)| < StristrBufSize
    ensures Stristr(s1, s2) == Some(k) <==>
      OccursAt(LowerStr(CStr(s1)), LowerStr(CStr(s2)), k)
      && forall j :: 0 <= j < k ==> !OccursAt(LowerStr(CStr(s1)), LowerStr(CStr(s2)), j)
  {
    assert Folded(s1) == LowerStr(CStr(s1));
    assert Folded(s2) == LowerStr(CStr(s2));
  }

  /** What vsnprintf stores into an n-character destination for the formatted text t: the
      text cut to n-1 characters, then a terminator. */
  function Formatted(t: seq<char>, n: int): (w: seq<char>)
    requires n > 0
    ensures |w| == Min(|t|, n - 1) + 1 && w[|w| - 1] == NUL && w[..|w| - 1] == Cut(t, n - 1)
  {
    Cut(t, n - 1) + [NUL]
  }

  /** vsnprintf's result under the convention the runtime relies on: the text's length when it
      fits with its terminator, a negative value when it does not. */
  function FormattedLen(t: seq<char>, n: int): int
  {
    if |t| < n then |t| else -1
  }

  /** The string a vsnprintf destination holds afterwards is the text's string, cut to n-1. */
  lemma FormattedCStr(b: seq<char>, off: nat, t: seq<char>, n: int)
    requires n > 0 && off + |Formatted(t, n)| <= |b|
    ensures CStr(Splice(b, off, Formatted(t, n))[off..]) == Cut(CStr(t), n - 1)
  {
    var w := Formatted(t, n);
    var r := Splice(b, off, w);
    var c := Cut(CStr(t), n - 1);
    forall i | 0 <= i < |c| ensures r[off + i] == c[i] {
      assert w[i] == t[i];
    }
    if |c| < |w| - 1 {
      assert r[off + |c|] == w[|c|] == t[|c|];
    } else {
      assert r[off + |c|] == w[|w| - 1];
    }
    ReadsAt(r, off, c);
  }

  /** vsnprintf into dst[off..off+n], the formatted text being given. */
  method Vsnprintf(dst: array<char>, off: nat, n: int, t: seq<char>) returns (len: int)
    requires 0 < n && off + n <= dst.Length
    modifies dst
    ensures dst[..] == Splice(old(dst[..]), off, Formatted(t, n))
    ensures len == FormattedLen(t, n)
  {
    WriteAt(dst, off, Formatted(t, n));
    len := FormattedLen(t, n);
  }

  /** The number a string of decimal digits denotes. */
  function DigitsValue(s: seq<char>): int
  {
    if s == [] then 0 else DigitsValue(s[..|s| - 1]) * 10 + (s[|s| - 1] as int - '0' as int)
  }

  /** %d of a non-negative number: decimal digits denoting n, with no leading zero. */
  function Decimal(n: nat): (r: seq<char>)
    ensures |r| > 0 && forall i :: 0 <= i < |r| ==> '0' <= r[i] <= '9'
    ensures DigitsValue(r) == n
    ensures |r| > 1 ==> r[0] != '0'
  {
    var d := ['0' + (n % 10) as char];
    if n < 10 then d
    else
      var h := Decimal(n / 10);
      assert (h + d)[..|h + d| - 1] == h;
      h + d
  }
}
