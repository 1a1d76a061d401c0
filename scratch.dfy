/**
 The `va` scratch formatting buffer of Core/Core.cpp (lines 295-335): a static 2048-character
 ring whose cursor `bufPos` says where the next formatted string goes. Each call formats into
 the ring and returns a pointer into it, modelled as an offset.

 The formatted text is an input (format expansion is not modelled); the buffer is written
 through the vsnprintf model of CStrings.
 */
module Scratch {
  import opened CStrings

  const BufSize: int := 2048
  const GoodSize: int := 512

  /** The overflow marker and its terminator: the 16 characters of `sizeof(suffix)`. */
  const Suffix: seq<char> := " ... (overflow)"
  const SuffixZ: seq<char> := Suffix + [NUL]

  /** Where the overflow marker is copied: the last |SuffixZ| characters of the buffer. */
  const SuffixAt: int := 2032

  lemma SuffixFits()
    ensures |SuffixZ| == 16 && SuffixAt + |SuffixZ| == BufSize && NUL !in Suffix
  {
  }

  /** The ring after a call, the new cursor, and the offset of the returned string. */
  datatype VaResult = VaResult(buf: seq<char>, pos: int, str: int)

  /** Where a call with cursor pos starts formatting: the ring wraps once less than
      GoodSize characters are left. */
  function Start(pos: int): (p0: int)
    ensures 0 <= pos <= BufSize ==> 0 <= p0 < BufSize - GoodSize
  {
    if pos >= BufSize - GoodSize then 0 else pos
  }

  /** One call of va(...) whose formatted text is t, from the ring b with cursor pos. */
  function VaStep(b: seq<char>, pos: int, t: seq<char>): (r: VaResult)
    requires |b| == BufSize && 0 <= pos <= BufSize
    ensures |r.buf| == BufSize && 0 <= r.pos <= BufSize && 0 <= r.str < BufSize
  {
    SuffixFits();
    var p0 := Start(pos);
    var b1 := Splice(b, p0, Formatted(t, BufSize - p0));
    if |t| < BufSize - p0 then
      VaResult(b1, p0 + |t| + 1, p0)
    else if p0 > 0 then
      var b2 := Splice(b1, 0, Formatted(t, BufSize));
      if |t| < BufSize then VaResult(b2, |t| + 1, 0)
      else VaResult(Splice(b2, SuffixAt, SuffixZ), 0, 0)
    else
      VaResult(Splice(b1, SuffixAt, SuffixZ), 0, 0)
  }

  /** The static buffer and its cursor. */
  class ScratchBuffer {
    var buf: array<char>
    var bufPos: int

    ghost predicate Valid()
      reads this
    {
      buf.Length == BufSize && 0 <= bufPos <= BufSize
    }

    /** A zero-initialised static buffer with the cursor at its start. */
    constructor ()
      ensures Valid() && fresh(buf) && bufPos == 0
      ensures forall i :: 0 <= i < BufSize ==> buf[i] == NUL
    {
      buf := new char[BufSize](_ => NUL);
      bufPos := 0;
    }

    /** va: formats t into the ring and returns the offset of the stored string. */
    method Va(t: seq<char>) returns (str: int)
      requires Valid()
      modifies this, buf
      ensures Valid() && buf == old(buf)
      ensures VaStep(old(buf[..]), old(bufPos), t) == VaResult(buf[..], bufPos, str)
    {
      ghost var b0, pos0 := buf[..], bufPos;
      ghost var r := VaStep(b0, pos0, t);
      if bufPos >= BufSize - GoodSize {
        bufPos := 0;  // wrap buffer
      }
      str := bufPos;
      var len := Vsnprintf(buf, bufPos, BufSize - bufPos, t);
      ghost var b1 := buf[..];
      assert b1 == Splice(b0, Start(pos0), Formatted(t, BufSize - Start(pos0)));
      if len < 0 && bufPos > 0 {
        // no room at the cursor: print again at the buffer start
        bufPos := 0;
        str := 0;
        len := Vsnprintf(buf, 0, BufSize, t);
      }
      if len < 0 {
        SuffixFits();
        ghost var b2 := buf[..];
        WriteAt(buf, SuffixAt, SuffixZ);
        assert buf[..] == Splice(b2, SuffixAt, SuffixZ);
        assert r == VaResult(buf[..], bufPos, str);
        return;
      }
      bufPos := bufPos + len + 1;
      assert r == VaResult(buf[..], bufPos, str);
    }
  }

  /** A cursor in the last GoodSize characters is reset to 0 before formatting. */
  lemma WrapsNearEnd(b: seq<char>, pos: int, t: seq<char>)
    requires |b| == BufSize && BufSize - GoodSize <= pos <= BufSize
    ensures VaStep(b, pos, t) == VaStep(b, 0, t)
  {
  }

  /** A text that fits at the cursor is stored there whole: the result points at the old
      cursor (after wrapping), the cursor moves past the terminator, and the strings stored
      before it are left intact. */
  lemma StoredAtCursor(b: seq<char>, pos: int, t: seq<char>)
    requires |b| == BufSize && 0 <= pos <= BufSize
    requires |t| < BufSize - Start(pos)
    ensures var r := VaStep(b, pos, t);
      && r.str == Start(pos) && r.pos == r.str + |t| + 1
      && CStr(r.buf[r.str..]) == CStr(t)
      && r.buf[..r.str] == b[..r.str]
      && r.buf[r.pos..] == b[r.pos..]
  {
    var p0 := Start(pos);
    var r := VaStep(b, pos, t);
    FormattedCStr(b, p0, t, BufSize - p0);
    assert r.buf[..p0] == b[..p0];
    assert r.buf[r.pos..] == b[r.pos..];
  }

  /** A text that does not fit at a cursor past 0 but fits the whole buffer is stored from the
      buffer start rather than split across the end. */
  lemma RetriedAtStart(b: seq<char>, pos: int, t: seq<char>)
    requires |b| == BufSize && 0 <= pos <= BufSize
    requires Start(pos) > 0 && BufSize - Start(pos) <= |t| < BufSize
    ensures var r := VaStep(b, pos, t);
      && r.str == 0 && r.pos == |t| + 1
      && CStr(r.buf) == CStr(t)
  {
    var p0 := Start(pos);
    var b1 := Splice(b, p0, Formatted(t, BufSize - p0));
    var b2 := Splice(b1, 0, Formatted(t, BufSize));
    assert VaStep(b, pos, t) == VaResult(b2, |t| + 1, 0);
    FormattedCStr(b1, 0, t, BufSize);
    assert b2[0..] == b2;
    assert Cut(CStr(t), BufSize - 1) == CStr(t);
  }

  /** The marker copied into the buffer fills its last 16 characters. */
  lemma MarkedTail(b2: seq<char>)
    requires |b2| == BufSize
    ensures Splice(b2, SuffixAt, SuffixZ)[SuffixAt..] == SuffixZ
  {
    SuffixFits();
    var m := Splice(b2, SuffixAt, SuffixZ);
    forall i | 0 <= i < |SuffixZ| ensures m[SuffixAt..][i] == SuffixZ[i] {
      assert m[SuffixAt + i] == SuffixZ[i];
    }
  }

  /** The marker copied over a buffer that starts with t's first SuffixAt characters leaves
      those characters followed by the marker as the string at the buffer start. */
  lemma MarkedReads(b2: seq<char>, t: seq<char>)
    requires |b2| == BufSize && SuffixAt <= |t| && NUL !in t
    requires forall i :: 0 <= i < SuffixAt ==> b2[i] == t[i]
    ensures CStr(Splice(b2, SuffixAt, SuffixZ)) == t[..SuffixAt] + Suffix
  {
    SuffixFits();
    assert b2[..SuffixAt] == t[..SuffixAt];
    AppendAt(b2, SuffixAt, Suffix);
  }

  /** A text that fills the whole buffer leaves its first SuffixAt characters at the start. */
  lemma FormattedPrefix(b: seq<char>, t: seq<char>)
    requires |b| == BufSize && |t| >= BufSize
    ensures forall i :: 0 <= i < SuffixAt ==> Splice(b, 0, Formatted(t, BufSize))[i] == t[i]
  {
    var w := Formatted(t, BufSize);
    forall i | 0 <= i < SuffixAt ensures Splice(b, 0, w)[i] == t[i] {
      assert Splice(b, 0, w)[0 + i] == w[i];
    }
  }

  /** A text that fits nowhere leaves the cursor at 0, the marker " ... (overflow)" in the
      last 16 characters, and, at the returned offset 0, the text's first 2032 characters
      followed by the marker. */
  lemma OverflowMarked(b: seq<char>, pos: int, t: seq<char>)
    requires |b| == BufSize && 0 <= pos <= BufSize
    requires |t| >= BufSize && NUL !in t
    ensures var r := VaStep(b, pos, t);
      && r.str == 0 && r.pos == 0
      && r.buf[SuffixAt..] == SuffixZ
      && CStr(r.buf) == t[..SuffixAt] + Suffix
  {
    var p0 := Start(pos);
    // the buffer start holds the text cut to BufSize - 1 characters, whichever attempt wrote it
    var b1 := if p0 > 0 then Splice(b, p0, Formatted(t, BufSize - p0)) else b;
    var b2 := Splice(b1, 0, Formatted(t, BufSize));
    assert VaStep(b, pos, t).buf == Splice(b2, SuffixAt, SuffixZ);
    FormattedPrefix(b1, t);
    MarkedTail(b2);
    MarkedReads(b2, t);
  }
}
