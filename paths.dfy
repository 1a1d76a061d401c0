/**
 File-name normalisation and directory-chain creation (Core/Core.cpp lines 408-462).
 The `mkdir` calls are not performed: each method returns the list of paths it
 would hand to `mkdir`, in call order.
 */
module Paths {
  import opened Wrappers
  import opened CStrings

  /** Size of the local Name buffers of appMakeDirectory and appMakeDirectoryForFile. */
  const NameSize: int := 256

  /** The first step of NormalizeFilename: a backslash becomes a slash. */
  function Slash(c: char): char
  {
    if c == '\\' then '/' else c
  }

  predicate IsSeparator(c: char)
  {
    c == '/' || c == '\\'
  }

  predicate NoDoubleSlash(s: seq<char>)
  {
    forall i :: 0 < i < |s| ==> !(s[i - 1] == '/' && s[i] == '/')
  }

  /** A name NormalizeFilename leaves alone: no backslash, no two slashes in a row. */
  predicate IsNormal(s: seq<char>)
  {
    '\\' !in s && NoDoubleSlash(s)
  }

  /** The characters of s that are not separators, in order. */
  function NonSeparators(s: seq<char>): seq<char>
  {
    if s == [] then []
    else NonSeparators(s[..|s| - 1]) + (if IsSeparator(s[|s| - 1]) then [] else [s[|s| - 1]])
  }

  /** The string NormalizeFilename makes of the string s, read left to right: a slash is
      dropped when the character kept before it is a slash. */
  function Normalized(s: seq<char>): (r: seq<char>)
    ensures |r| <= |s|
  {
    if s == [] then []
    else
      var p := Normalized(s[..|s| - 1]);
      var c := Slash(s[|s| - 1]);
      if c == '/' && p != [] && p[|p| - 1] == '/' then p else p + [c]
  }

  /** NormalizeFilename adds no terminator: every character it keeps is a source character
      or a slash. */
  lemma {:induction false} NormalizedAddsNoNul(s: seq<char>)
    ensures NUL !in s ==> NUL !in Normalized(s)
  {
    if s != [] {
      NormalizedAddsNoNul(s[..|s| - 1]);
    }
  }

  /** A character appended to a name with no doubled slash doubles none, unless it is a
      slash after a slash. */
  lemma NoDoubleSlashAppend(p: seq<char>, c: char)
    requires NoDoubleSlash(p)
    requires c == '/' ==> p == [] || p[|p| - 1] != '/'
    ensures NoDoubleSlash(p + [c])
  {
    var r := p + [c];
    forall i | 0 < i < |r| ensures !(r[i - 1] == '/' && r[i] == '/') {
      if i < |p| {
        assert r[i - 1] == p[i - 1] && r[i] == p[i];
      }
    }
  }

  /** NormalizeFilename leaves no backslash and no two slashes in a row, keeps every other
      character in order, and empties only the empty name. */
  lemma {:induction false} NormalizedIsNormal(s: seq<char>)
    ensures IsNormal(Normalized(s))
    ensures NonSeparators(Normalized(s)) == NonSeparators(s)
    ensures Normalized(s) == [] <==> s == []
  {
    if s != [] {
      var q := s[..|s| - 1];
      NormalizedIsNormal(q);
      var p := Normalized(q);
      var c := Slash(s[|s| - 1]);
      assert NonSeparators(s) == NonSeparators(q) + (if IsSeparator(s[|s| - 1]) then [] else [s[|s| - 1]]);
      if c == '/' && p != [] && p[|p| - 1] == '/' {
        assert Normalized(s) == p;
        assert NonSeparators(q) + [] == NonSeparators(q);
      } else {
        assert Normalized(s) == p + [c];
        NoDoubleSlashAppend(p, c);
        assert (p + [c])[..|p|] == p;
        assert NonSeparators(p + [c]) == NonSeparators(p) + (if IsSeparator(c) then [] else [c]);
      }
    }
  }

  /** A name that is already normal is left as it is. */
  lemma {:induction false} NormalizedFixesNormal(s: seq<char>)
    requires IsNormal(s)
    ensures Normalized(s) == s
  {
    if s != [] {
      var q := s[..|s| - 1];
      assert IsNormal(q);
      NormalizedFixesNormal(q);
      assert s == q + [s[|s| - 1]];
    }
  }

  /** Normalising twice is normalising once. */
  lemma NormalizeIdempotent(s: seq<char>)
    ensures Normalized(Normalized(s)) == Normalized(s)
  {
    NormalizedIsNormal(s);
    NormalizedFixesNormal(Normalized(s));
  }

  /** The buffer NormalizeFilename leaves: the normalised string and its terminator written
      from the start; the rest of the buffer keeps its old characters. */
  function NormalizedBuffer(b: seq<char>): seq<char>
    requires NUL in b
  {
    Splice(b, 0, Normalized(CStr(b)) + [NUL])
  }

  /** The string in the normalised buffer is the normalised string. */
  lemma NormalizedBufferReads(b: seq<char>)
    requires NUL in b
    ensures NUL in NormalizedBuffer(b)
    ensures CStr(NormalizedBuffer(b)) == Normalized(CStr(b))
  {
    var s := CStr(b);
    assert |s| < |b|;
    var n := Normalized(s);
    NormalizedAddsNoNul(s);
    var w := n + [NUL];
    var b1 := NormalizedBuffer(b);
    assert b1[0 + |n|] == w[|n|];
    forall i | 0 <= i < |n| ensures b1[i] == n[i] {
      assert b1[0 + i] == w[i];
    }
    ReadsAt(b1, 0, n);
    assert b1[0..] == b1;
  }

  /** Normalising the buffer a second time changes nothing. */
  lemma NormalizedBufferIdempotent(b: seq<char>)
    requires NUL in b
    ensures NUL in NormalizedBuffer(b)
    ensures NormalizedBuffer(NormalizedBuffer(b)) == NormalizedBuffer(b)
  {
    NormalizedBufferReads(b);
    NormalizeIdempotent(CStr(b));
    var b1 := NormalizedBuffer(b);
    var w := Normalized(CStr(b)) + [NUL];
    assert NormalizedBuffer(b1) == Splice(b1, 0, w);
    forall k | 0 <= k < |w| ensures b1[0 + k] == w[k] {
    }
    SpliceOf(b1, b1, 0, w);
  }

  /** One more source character for Normalized. */
  lemma NormalizedStep(s: seq<char>, i: nat)
    requires i < |s|
    ensures var p := Normalized(s[..i]); var c := Slash(s[i]);
      Normalized(s[..i + 1]) == if c == '/' && LastOf(p) == '/' then p else p + [c]
  {
    assert s[..i + 1][..i] == s[..i];
  }

  /** The buffer left when the normalised string and its terminator fill b[..j] and the
      rest is untouched. */
  lemma NormalizeDone(b0: seq<char>, b: seq<char>, j: nat)
    requires NUL in b0 && |b| == |b0| && 0 < j <= |b|
    requires j == |Normalized(CStr(b0))| + 1 && b[j - 1] == NUL
    requires forall k :: 0 <= k < j - 1 ==> b[k] == Normalized(CStr(b0))[k]
    requires forall k :: j <= k < |b| ==> b[k] == b0[k]
    ensures b == NormalizedBuffer(b0)
  {
    var n := Normalized(CStr(b0));
    var r := NormalizedBuffer(b0);
    assert r[..j] == n + [NUL];
    forall k | 0 <= k < |b| ensures b[k] == r[k] {
      if k < j {
        assert r[k] == r[..j][k];
      }
    }
  }

  /** The last character NormalizeFilename has written, or NUL before the first. */
  function LastOf(out: seq<char>): char
  {
    if out == [] then NUL else out[|out| - 1]
  }

  /** NormalizeFilename: in place, turns backslashes into slashes and squeezes runs of slashes. */
  method NormalizeFilename(filename: array<char>)
    requires NUL in filename[..]
    modifies filename
    ensures filename[..] == NormalizedBuffer(old(filename[..]))
  {
    ghost var b0 := filename[..];
    ghost var s := CStr(b0);
    assert |s| < |b0|;
    var i, j := 0, 0;  // the source's src and dst
    var prev := NUL;
    ghost var out: seq<char> := [];  // what has been written at dst so far
    while true
      invariant 0 <= j <= i <= |s|
      invariant out == Normalized(s[..i]) && |out| == j && prev == LastOf(out)
      invariant forall k :: 0 <= k < j ==> filename[k] == out[k]
      invariant forall k :: j <= k < filename.Length ==> filename[k] == b0[k]
      decreases |s| - i
    {
      var c := filename[i];
      if i < |s| {
        assert c == s[i] && c != NUL;
        NormalizedStep(s, i);
      } else {
        assert c == NUL;
      }
      i := i + 1;
      if c == '\\' {
        c := '/';
      }
      if c == '/' && prev == '/' {
        continue;
      }
      filename[j] := c;
      prev := c;
      j := j + 1;
      if c == NUL {
        break;
      }
      out := out + [c];
    }
    assert s[..i - 1] == s;
    assert out == Normalized(CStr(b0));
    ghost var b := filename[..];
    assert forall k :: 0 <= k < j - 1 ==> b[k] == out[k];
    assert forall k :: j <= k < |b| ==> b[k] == b0[k];
    NormalizeDone(b0, b, j);
  }

  /** k is a place where appMakeDirectory cuts the path p: a slash, or the end. */
  predicate CutPoint(p: seq<char>, k: nat)
  {
    k == |p| || (k < |p| && p[k] == '/')
  }

  /** The directories appMakeDirectory creates for the normalised path p from the cut points
      before k, in order; "." is never created. */
  function Chain(p: seq<char>, k: nat): seq<seq<char>>
    requires k <= |p| + 1
  {
    if k == 0 then []
    else Chain(p, k - 1) + (if CutPoint(p, k - 1) && p[..k - 1] != "." then [p[..k - 1]] else [])
  }

  lemma ChainStep(p: seq<char>, k: nat)
    requires k <= |p|
    ensures Chain(p, k + 1) == if CutPoint(p, k) && p[..k] != "." then Chain(p, k) + [p[..k]] else Chain(p, k)
  {
    assert Chain(p, k) + [] == Chain(p, k);
  }

  /** A path is created exactly when it is p cut at a cut point before k, and is not ".". */
  lemma {:induction false} ChainMembers(p: seq<char>, k: nat, e: seq<char>)
    requires k <= |p| + 1
    ensures e in Chain(p, k) <==> |e| < k && CutPoint(p, |e|) && e == p[..|e|] && e != "."
  {
    if k > 0 {
      ChainMembers(p, k - 1, e);
    }
  }

  /** The paths are created shortest first: each is a proper prefix of the next. */
  lemma {:induction false} ChainOrdered(p: seq<char>, k: nat)
    requires k <= |p| + 1
    ensures forall i :: 0 <= i < |Chain(p, k)| ==> |Chain(p, k)[i]| < k
    ensures forall i, j :: 0 <= i < j < |Chain(p, k)| ==> Chain(p, k)[i] < Chain(p, k)[j]
  {
    if k > 0 {
      ChainOrdered(p, k - 1);
      var c := Chain(p, k - 1);
      assert forall i :: 0 <= i < |c| ==> Chain(p, k)[i] == c[i];
      forall i | 0 <= i < |c| ensures c[i] == p[..|c[i]|] {
        ChainMembers(p, k - 1, c[i]);
      }
    }
  }

  /** The path itself is the last directory created, unless it is ".". */
  lemma ChainEndsWithPath(p: seq<char>)
    requires p != "."
    ensures Chain(p, |p| + 1) != [] && Chain(p, |p| + 1)[|Chain(p, |p| + 1)| - 1] == p
  {
    assert p[..|p|] == p;
  }

  /** The path appMakeDirectory and appMakeDirectoryForFile work on: the name cut to fit the
      local buffer, then normalised. */
  function WorkPath(d: seq<char>): seq<char>
  {
    Normalized(Cut(CStr(d), NameSize - 1))
  }

  /** What the local buffer holds after the bounded copy of d and NormalizeFilename. */
  lemma CopiedAndNormalized(b0: seq<char>, d: seq<char>)
    requires |b0| == NameSize
    ensures var b1 := Splice(b0, 0, CopyZ(d, NameSize));
      && NUL in b1
      && var buf := NormalizedBuffer(b1);
      && var p := WorkPath(d);
      && |p| < |buf| && NUL !in p && buf[|p|] == NUL && CStr(buf) == p
      && (forall i :: 0 <= i < |p| ==> buf[i] == p[i])
  {
    var w := CopyZ(d, NameSize);
    var b1 := Splice(b0, 0, w);
    CopyZMeaning(b0, 0, d, NameSize);
    assert b1[0..] == b1;
    assert b1[0 + (|w| - 1)] == w[|w| - 1] == NUL;
    NormalizedBufferReads(b1);
    var buf := NormalizedBuffer(b1);
    var p := CStr(buf);
    assert |p| <= |CStr(b1)|;
    forall i | 0 <= i < |p| ensures buf[i] == p[i] {
      assert p == buf[..|p|];
    }
  }

  /** Once the buffer holds the prefix p[..k] followed by a NUL, that prefix is its string,
      and the source's test for "." holds exactly when that prefix is ".". */
  lemma CutAt(b: seq<char>, p: seq<char>, k: nat)
    requires k <= |p| && k < |b| && 2 <= |b| && NUL !in p
    requires b[k] == NUL && forall i :: 0 <= i < k ==> b[i] == p[i]
    ensures CStr(b) == p[..k]
    ensures (b[0] != '.' || b[1] != NUL) <==> p[..k] != "."
  {
    assert b[..k] == p[..k];
    CStrIs(b, k);
    if k == 1 {
      assert p[..k] == [p[0]];
    } else if k >= 2 {
      assert b[1] == p[1];
      assert |p[..k]| >= 2;
    }
  }

  /** The local Name buffer of appMakeDirectory and appMakeDirectoryForFile after the bounded
      copy of d and NormalizeFilename: it holds WorkPath(d) followed by a NUL. */
  method LoadName(d: seq<char>) returns (name: array<char>)
    ensures fresh(name) && name.Length == NameSize
    ensures |WorkPath(d)| < NameSize && NUL !in WorkPath(d)
    ensures forall i :: 0 <= i < |WorkPath(d)| ==> name[i] == WorkPath(d)[i]
    ensures name[|WorkPath(d)|] == NUL
    ensures CStr(name[..]) == WorkPath(d)
  {
    name := new char[NameSize];
    CopiedAndNormalized(name[..], d);
    Strncpyz(name, 0, d, NameSize);
    NormalizeFilename(name);
  }

  /** Each cut point gives at most one path. */
  lemma {:induction false} ChainLength(p: seq<char>, k: nat)
    requires k <= |p| + 1
    ensures |Chain(p, k)| <= k
  {
    if k > 0 {
      ChainLength(p, k - 1);
    }
  }

  /** The paths appMakeDirectory passes to mkdir for the directory name d: none for an empty
      name, otherwise at most one per character of the 256-character Name buffer, each a
      prefix of the normalised name. */
  function MkdirCalls(d: seq<char>): (r: seq<seq<char>>)
    ensures CStr(d) == [] ==> r == []
    ensures |r| <= NameSize
    ensures forall i :: 0 <= i < |r| ==> r[i] <= WorkPath(d)
  {
    if CStr(d) == [] then []
    else
      var p := WorkPath(d);
      var c := Chain(p, |p| + 1);
      ChainLength(p, |p| + 1);
      forall i | 0 <= i < |c| ensures c[i] <= p {
        ChainMembers(p, |p| + 1, c[i]);
      }
      c
  }

  /** appMakeDirectory: creates every directory along the (normalised, 255-character) name. */
  method MakeDirectory(dirname: seq<char>) returns (made: seq<seq<char>>)
    ensures made == MkdirCalls(dirname)
  {
    if At(dirname, 0) == NUL {
      return [];
    }
    var name := LoadName(dirname);
    ghost var p := WorkPath(dirname);
    made := [];
    var k := 0;
    while true
      invariant 0 <= k <= |p|
      invariant forall i :: 0 <= i < |p| ==> name[i] == p[i]
      invariant name[|p|] == NUL
      invariant made == Chain(p, k)
      decreases |p| - k
    {
      var c := name[k];
      ChainStep(p, k);
      if c != '/' && c != NUL {
        k := k + 1;
        continue;
      }
      assert CutPoint(p, k);
      name[k] := NUL;  // temporarily cut the rest of the path
      CutAt(name[..], p, k);
      if name[0] != '.' || name[1] != NUL {
        made := made + [CStr(name[..])];
      }
      if c == NUL {
        break;
      }
      name[k] := '/';  // restore the string
      k := k + 1;
    }
  }

  /** strrchr(p, '/'): the index of the last slash of p. */
  function LastSlash(p: seq<char>): (r: Option<nat>)
    ensures r.Some? ==> r.value < |p| && p[r.value] == '/'
    ensures r.Some? ==> forall i :: r.value < i < |p| ==> p[i] != '/'
    ensures r.None? <==> '/' !in p
  {
    if p == [] then None
    else if p[|p| - 1] == '/' then Some(|p| - 1)
    else
      var r := LastSlash(p[..|p| - 1]);
      assert forall i :: 0 <= i < |p| - 1 ==> p[..|p| - 1][i] == p[i];
      r
  }

  /** appMakeDirectory only looks at the string its argument holds. */
  lemma SameString(a: seq<char>, b: seq<char>)
    requires CStr(a) == CStr(b)
    ensures MkdirCalls(a) == MkdirCalls(b)
  {
  }

  /** The paths appMakeDirectoryForFile passes to mkdir for the file name f: none for a name
      without a directory part, and never more than the Name buffer has characters. */
  function ForFileCalls(f: seq<char>): (r: seq<seq<char>>)
    ensures '/' !in WorkPath(f) ==> r == []
    ensures |r| <= NameSize
  {
    var p := WorkPath(f);
    match LastSlash(p)
    case None => []
    case Some(k) => MkdirCalls(p[..k])
  }

  /** For a short normal path, appMakeDirectory's copy and normalisation change nothing. */
  lemma MkdirCallsOfNormal(q: seq<char>)
    requires q != [] && IsNormal(q) && NUL !in q && |q| < NameSize
    ensures MkdirCalls(q) == Chain(q, |q| + 1)
  {
    CStrIs(q, |q|);
    assert q[..|q|] == q;
    assert Cut(CStr(q), NameSize - 1) == q;
    NormalizedFixesNormal(q);
  }

  /** The cut points of p up to its last slash k are the slashes of p. */
  lemma ParentsOfPath(p: seq<char>, k: nat, e: seq<char>)
    requires IsNormal(p) && NUL !in p && |p| < NameSize
    requires 0 < k < |p| && p[k] == '/' && forall i :: k < i < |p| ==> p[i] != '/'
    ensures e in MkdirCalls(p[..k]) <==> |e| < |p| && p[|e|] == '/' && e == p[..|e|] && e != "."
  {
    var q := p[..k];
    assert IsNormal(q);
    MkdirCallsOfNormal(q);
    ChainMembers(q, |q| + 1, e);
    if |e| <= k && e == p[..|e|] {
      assert e == q[..|e|];
      assert CutPoint(q, |e|) <==> p[|e|] == '/';
    }
    if |e| <= k && e == q[..|e|] {
      assert e == p[..|e|];
    }
  }

  /** appMakeDirectoryForFile creates exactly the parent directories of the normalised file
      name: the prefixes ending just before one of its slashes (but not "."), provided the
      name has a slash after its first character. */
  lemma ForFileMakesParents(f: seq<char>, e: seq<char>)
    ensures var p := WorkPath(f);
      e in ForFileCalls(f) <==>
        && LastSlash(p).Some? && LastSlash(p).value > 0
        && |e| < |p| && p[|e|] == '/' && e == p[..|e|] && e != "."
  {
    var p := WorkPath(f);
    NormalizedIsNormal(Cut(CStr(f), NameSize - 1));
    NormalizedAddsNoNul(Cut(CStr(f), NameSize - 1));
    match LastSlash(p)
    case None =>
    case Some(k) =>
      if k > 0 {
        ParentsOfPath(p, k, e);
      } else {
        assert p[..k] == [];
      }
  }

  /** appMakeDirectoryForFile: creates the directory chain of a file's parent path. */
  method MakeDirectoryForFile(filename: seq<char>) returns (made: seq<seq<char>>)
    ensures made == ForFileCalls(filename)
  {
    var name := LoadName(filename);
    ghost var p := WorkPath(filename);
    var s := LastSlash(CStr(name[..]));  // strrchr(Name, '/')
    if s.Some? {
      name[s.value] := NUL;  // cut the file part
      CutAt(name[..], p, s.value);
      CStrIs(p[..s.value], s.value);
      SameString(name[..], p[..s.value]);
      made := MakeDirectory(name[..]);
    } else {
      made := [];
    }
  }
}
