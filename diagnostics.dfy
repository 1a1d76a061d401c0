/**
 The diagnostic output of Core/Core.cpp (lines 16-169): appPrintf and the log file, the
 one-shot notify header of appNotify, appSprintf, and the error history built by appError,
 appUnwindThrow and appUnwindPrefix while a guarded region unwinds.

 The output streams (stdout, stderr, the log file and notify.log) are sinks that collect the
 strings written to them, one per fwrite/fprintf call. Whether fopen succeeds is an input.
 A caller's formatted text is an input, as for vsnprintf in CStrings; the runtime's own fixed
 formats (the notify frames, "Fatal Error", the overflow report, appUnwindPrefix's "%s:") are
 expanded. exit(1) and THROW end a call with a Status that says which it was.
 */
module Diagnostics {
  import opened Wrappers
  import opened CStrings

  /** The local buffers of appPrintf, appError and appNotify. */
  const PrintfSize: int := 4096
  const NotifySize: int := 512
  const HistorySize: int := 2048
  /** The local buffer of appUnwindPrefix and appUnwindThrow. */
  const UnwindSize: int := 512

  const Fault: seq<char> := "General Protection Fault !\n"
  const Arrow: seq<char> := " <- "

  datatype Status = Returned | Exited | Thrown

  datatype Sinks = Sinks(stdout: seq<seq<char>>, stderr: seq<seq<char>>, log: seq<seq<char>>, notify: seq<seq<char>>)

  // ---------------------------------------------------------------------------------------
  // appPrintf

  /** appPrintf of the formatted text t: exit(1) unless t fits the 4096-character buffer with
      room to spare; otherwise t is written to stdout and, when open, to the log. */
  function PrintfStep(s: Sinks, logOpen: bool, t: seq<char>): (r: Option<Sinks>)
    ensures r.None? <==> |t| >= 4095
    ensures r.Some? ==> r.value.stderr == s.stderr && r.value.notify == s.notify
  {
    if |t| >= PrintfSize - 1 then None
    else Some(s.(stdout := s.stdout + [t], log := if logOpen then s.log + [t] else s.log))
  }

  lemma PrintfEchoes(s: Sinks, logOpen: bool, t: seq<char>)
    ensures PrintfStep(s, logOpen, t).None? <==> |t| >= 4095
    ensures var r := PrintfStep(s, logOpen, t);
      r.Some? ==>
        && r.value.stdout == s.stdout + [t]
        && (logOpen ==> r.value.log == s.log + [t])
        && (!logOpen ==> r.value.log == s.log)
        && r.value.stderr == s.stderr && r.value.notify == s.notify
  {
  }

  /** The message appSprintf prints when the text does not fit. */
  function OverflowReport(size: nat, fmt: seq<char>): seq<char>
  {
    "appSprintf: overflow of size " + Decimal(size) + " (fmt=" + CStr(fmt) + ")\n"
  }

  // ---------------------------------------------------------------------------------------
  // appNotify

  /** The frame printed to the log and to stderr: "******** %s ********\n". */
  function Frame(hdr: seq<char>): seq<char>
  {
    "******** " + hdr + " ********\n"
  }

  /** The frame printed to notify.log, with an empty line around it. */
  function FileFrame(hdr: seq<char>): seq<char>
  {
    "\n" + Frame(hdr) + "\n"
  }

  /** What one stream receives from appNotify: the frame when there is a header, then the line. */
  function Framed(hdr: seq<char>, frame: seq<char>, line: seq<char>): seq<seq<char>>
  {
    (if hdr == [] then [] else [frame]) + [line]
  }

  /** The three streams appNotify prints the message m to, under the header hdr. */
  function Delivered(s: Sinks, logOpen: bool, notifyOpened: bool, hdr: seq<char>, m: seq<char>): Sinks
  {
    Sinks(s.stdout,
          s.stderr + Framed(hdr, Frame(hdr), "*** " + m + "\n"),
          if logOpen then s.log + Framed(hdr, Frame(hdr), "*** " + m + "\n") else s.log,
          if notifyOpened then s.notify + Framed(hdr, FileFrame(hdr), m + "\n") else s.notify)
  }

  /** appNotify of the formatted text t under the header hdr. */
  function NotifyStep(s: Sinks, logOpen: bool, notifyOpened: bool, hdr: seq<char>, t: seq<char>): (r: Option<Sinks>)
    ensures r.None? <==> |t| >= 4095
    ensures r.Some? ==> r.value.stdout == s.stdout && s.stderr < r.value.stderr
  {
    if |t| >= PrintfSize - 1 then None
    else Some(Delivered(s, logOpen, notifyOpened, hdr, CStr(t)))
  }

  /** appNotify exits for a text of 4095 characters or more. Otherwise each stream that is
      open gets the header's frame first when there is a header, then the message; the log
      only when it is open, notify.log only when it could be opened; stdout nothing. */
  lemma NotifyFraming(s: Sinks, logOpen: bool, notifyOpened: bool, hdr: seq<char>, t: seq<char>)
    ensures NotifyStep(s, logOpen, notifyOpened, hdr, t).None? <==> |t| >= 4095
    ensures var r := NotifyStep(s, logOpen, notifyOpened, hdr, t);
      r.Some? ==>
        && r.value.stdout == s.stdout
        && (hdr == [] ==> r.value.stderr == s.stderr + ["*** " + CStr(t) + "\n"])
        && (hdr != [] ==> r.value.stderr == s.stderr + [Frame(hdr), "*** " + CStr(t) + "\n"])
        && (logOpen ==> r.value.log == s.log + r.value.stderr[|s.stderr|..])
        && (!logOpen ==> r.value.log == s.log)
        && (!notifyOpened ==> r.value.notify == s.notify)
        && (notifyOpened && hdr == [] ==> r.value.notify == s.notify + [CStr(t) + "\n"])
        && (notifyOpened && hdr != [] ==> r.value.notify == s.notify + [FileFrame(hdr), CStr(t) + "\n"])
  {
  }

  /** The header is delivered once: notifying twice under a header (the second time with the
      header the first call cleared) frames only the first message. */
  lemma NotifyHeaderOnce(s: Sinks, logOpen: bool, notifyOpened: bool, hdr: seq<char>, t1: seq<char>, t2: seq<char>)
    requires hdr != [] && |t1| < 4095 && |t2| < 4095
    ensures var s1 := NotifyStep(s, logOpen, notifyOpened, hdr, t1).value;
      var s2 := NotifyStep(s1, logOpen, notifyOpened, [], t2).value;
      && s2.stderr == s.stderr + [Frame(hdr), "*** " + CStr(t1) + "\n", "*** " + CStr(t2) + "\n"]
      && (logOpen ==> s2.log == s.log + [Frame(hdr), "*** " + CStr(t1) + "\n", "*** " + CStr(t2) + "\n"])
      && (notifyOpened ==> s2.notify == s.notify + [FileFrame(hdr), CStr(t1) + "\n", CStr(t2) + "\n"])
  {
  }

  // ---------------------------------------------------------------------------------------
  // The error history

  /** The error history and WasError, the history being the string GErrorHistory holds. */
  datatype TraceState = TraceState(history: seq<char>, wasError: bool)

  lemma CutConcat(a: seq<char>, c: seq<char>, n: nat)
    requires |a| <= n
    ensures Cut(a + c, n) == a + Cut(c, n - |a|)
  {
    assert (a + c)[..|a|] == a;
    assert Cut(a + c, n) == (a + c)[..Min(|a| + |c|, n)];
  }

  /** LogHistory on the history string: the fault banner first when the history is empty,
      then part, all cut to what fits in GErrorHistory. */
  function Logged(hist: seq<char>, part: seq<char>): (r: seq<char>)
    ensures |r| < HistorySize
  {
    var base := if hist == [] then Fault else hist;
    Cut(base + CStr(part), HistorySize - 1)
  }

  /** The history grows only at its end; the banner starts it and is never added again. */
  lemma LoggedExtends(hist: seq<char>, part: seq<char>)
    requires |hist| < HistorySize
    ensures hist != [] ==> hist <= Logged(hist, part)
    ensures Fault <= Logged([], part)
    ensures var base := if hist == [] then Fault else hist;
      |base| + |CStr(part)| < HistorySize ==> Logged(hist, part) == base + CStr(part)
  {
    CutConcat(hist, CStr(part), HistorySize - 1);
    CutConcat(Fault, CStr(part), HistorySize - 1);
  }

  /** What appUnwindThrow logs: the message, after " <- " while an error is unwinding. */
  function ThrowPart(wasError: bool, t: seq<char>): seq<char>
  {
    if wasError then Arrow + Cut(CStr(t), UnwindSize - 5) else Cut(CStr(t), UnwindSize - 1)
  }

  /** appUnwindPrefix's format: "%s:", or " <- %s:" while an error is unwinding. */
  function PrefixFormat(wasError: bool): seq<char>
  {
    if wasError then " <- %s:" else "%s:"
  }

  /** That format expanded with the name. */
  function PrefixText(wasError: bool, name: seq<char>): (r: seq<char>)
    ensures NUL !in r
  {
    (if wasError then Arrow else []) + CStr(name) + ":"
  }

  /** What appUnwindPrefix logs: the expanded format, cut to its 512-character buffer. */
  function PrefixPart(wasError: bool, name: seq<char>): seq<char>
  {
    Cut(PrefixText(wasError, name), UnwindSize - 1)
  }

  function ThrowStep(tr: TraceState, t: seq<char>): (r: TraceState)
    ensures |r.history| < HistorySize && r.wasError
  {
    TraceState(Logged(tr.history, ThrowPart(tr.wasError, t)), true)
  }

  function PrefixStep(tr: TraceState, name: seq<char>): (r: TraceState)
    ensures |r.history| < HistorySize && !r.wasError
  {
    TraceState(Logged(tr.history, PrefixPart(tr.wasError, name)), false)
  }

  /** appError (guarded build): the history becomes the message and a line break. */
  function ErrorStep(tr: TraceState, t: seq<char>): (r: TraceState)
    ensures |r.history| < HistorySize && r.wasError == tr.wasError
    ensures |CStr(t)| < HistorySize - 1 ==> r.history == CStr(t) + "\n"
  {
    TraceState(Cut(CStr(t) + "\n", HistorySize - 1), tr.wasError)
  }

  /** The first appUnwindThrow of an unwinding logs its message unprefixed, after the banner
      when the history is empty, and starts the unwinding. */
  lemma FirstThrow(hist: seq<char>, t: seq<char>)
    requires |hist| < HistorySize
    requires var base := if hist == [] then Fault else hist;
      |CStr(t)| < UnwindSize && |base| + |CStr(t)| < HistorySize
    ensures ThrowStep(TraceState(hist, false), t) ==
      TraceState((if hist == [] then Fault else hist) + CStr(t), true)
  {
    var p := ThrowPart(false, t);
    assert p == CStr(t);
    CStrIs(p, |p|);
    LoggedExtends(hist, p);
  }

  /** While an error unwinds, appUnwindThrow appends " <- " and its message. */
  lemma NextThrow(hist: seq<char>, t: seq<char>)
    requires hist != [] && |CStr(t)| < UnwindSize - 4 && |hist| + |CStr(t)| + 4 < HistorySize
    ensures ThrowStep(TraceState(hist, true), t) == TraceState(hist + Arrow + CStr(t), true)
  {
    var p := ThrowPart(true, t);
    assert p == Arrow + CStr(t);
    CStrIs(p, |p|);
    LoggedExtends(hist, p);
  }

  /** appUnwindPrefix appends "name:", after " <- " while an error unwinds, and ends it. */
  lemma PrefixAppends(hist: seq<char>, wasError: bool, name: seq<char>)
    requires hist != [] && |CStr(name)| + 5 < UnwindSize && |hist| + |CStr(name)| + 5 < HistorySize
    ensures PrefixStep(TraceState(hist, wasError), name) ==
      TraceState(hist + (if wasError then Arrow else []) + CStr(name) + ":", false)
  {
    var p := PrefixPart(wasError, name);
    var text := PrefixText(wasError, name);
    assert p == text;
    CStrIs(p, |p|);
    LoggedExtends(hist, p);
  }

  /** An inner region B that throws, then an outer region A that throws: the history reads
      "B <- A" after the banner, and WasError stays set; an enclosing function f then adds
      " <- f:" and clears it. */
  lemma UnwindTrace(b: seq<char>, a: seq<char>, f: seq<char>)
    requires |CStr(b)| < UnwindSize && |CStr(a)| < UnwindSize - 4
    requires |Fault| + |CStr(b)| + |CStr(a)| + |CStr(f)| + 9 < HistorySize && |CStr(f)| + 5 < UnwindSize
    ensures var t1 := ThrowStep(TraceState([], false), b);
      var t2 := ThrowStep(t1, a);
      var t3 := PrefixStep(t2, f);
      && t1 == TraceState(Fault + CStr(b), true)
      && t2 == TraceState(Fault + CStr(b) + Arrow + CStr(a), true)
      && t3 == TraceState(Fault + CStr(b) + Arrow + CStr(a) + Arrow + CStr(f) + ":", false)
  {
    FirstThrow([], b);
    var h1 := Fault + CStr(b);
    NextThrow(h1, a);
    var h2 := h1 + Arrow + CStr(a);
    PrefixAppends(h2, true, f);
  }

  /** appError replaces the history with its message, so the frames unwinding from it follow
      the message directly: "msg\nf:" for an enclosing function f. */
  lemma ErrorTrace(tr: TraceState, t: seq<char>, f: seq<char>)
    requires !tr.wasError && |CStr(t)| + |CStr(f)| + 2 < HistorySize && |CStr(f)| + 1 < UnwindSize
    ensures PrefixStep(ErrorStep(tr, t), f) == TraceState(CStr(t) + "\n" + CStr(f) + ":", false)
  {
    var h := CStr(t) + "\n";
    assert Cut(h, HistorySize - 1) == h;
    var pf := PrefixPart(false, f);
    assert pf == CStr(f) + ":";
    CStrIs(pf, |pf|);
    LoggedExtends(h, pf);
  }

  /** The report of the unguarded appError: "Fatal Error: %s\n" to stderr, and as written a
      second time to stderr, not to the log, when the log is open. */
  function FatalReport(s: Sinks, logOpen: bool, t: seq<char>): (r: Sinks)
    ensures r.stdout == s.stdout && r.log == s.log && r.notify == s.notify
    ensures |r.stderr| == |s.stderr| + (if logOpen then 2 else 1)
  {
    var line := "Fatal Error: " + CStr(t) + "\n";
    s.(stderr := s.stderr + [line] + (if logOpen then [line] else []))
  }

  lemma FatalReportMissesLog(s: Sinks, t: seq<char>)
    ensures FatalReport(s, true, t).log == s.log
    ensures FatalReport(s, true, t).stderr == s.stderr + ["Fatal Error: " + CStr(t) + "\n", "Fatal Error: " + CStr(t) + "\n"]
  {
  }

  /** The report the second fprintf evidently means: once to stderr and once to the log. */
  function FatalReportCorrected(s: Sinks, logOpen: bool, t: seq<char>): (r: Sinks)
    ensures r.stdout == s.stdout && r.notify == s.notify && |r.stderr| == |s.stderr| + 1
    ensures |r.log| == |s.log| + (if logOpen then 1 else 0)
  {
    var line := "Fatal Error: " + CStr(t) + "\n";
    s.(stderr := s.stderr + [line], log := if logOpen then s.log + [line] else s.log)
  }

  lemma FatalReportReachesLog(s: Sinks, logOpen: bool, t: seq<char>)
    ensures var r := FatalReportCorrected(s, logOpen, t);
      && r.stderr == s.stderr + ["Fatal Error: " + CStr(t) + "\n"]
      && (logOpen ==> r.log == s.log + ["Fatal Error: " + CStr(t) + "\n"])
      && (!logOpen ==> r.log == s.log)
      && r.stdout == s.stdout && r.notify == s.notify
  {
  }

  // ---------------------------------------------------------------------------------------
  // The buffers

  /** A string that no terminator interrupts before k reads on past k. */
  lemma CStrSplit(s: seq<char>, k: nat)
    requires k <= |s| && NUL !in s[..k]
    ensures CStr(s) == s[..k] + CStr(s[k..])
  {
    var c := CStr(s[k..]);
    var w := s[..k] + c;
    assert w <= s by {
      forall i | 0 <= i < |w| ensures w[i] == s[i] {
        if i >= k {
          assert w[i] == c[i - k] == s[k..][i - k];
        }
      }
    }
    if |w| < |s| {
      assert s[|w|] == s[k..][|c|] == NUL;
      assert NUL !in w;
      CStrIs(s, |w|);
    } else {
      CStrIs(s, |w|);
    }
    assert s[..|w|] == w;
  }

  /** A text that fits is what vsnprintf leaves before the terminator. */
  lemma FormattedText(b: seq<char>, t: seq<char>, n: int)
    requires |t| < n <= |b|
    ensures Splice(b, 0, Formatted(t, n))[..|t|] == t
  {
    var w := Formatted(t, n);
    var r := Splice(b, 0, w);
    forall i | 0 <= i < |t| ensures r[i] == t[i] {
      assert r[0 + i] == w[i];
    }
  }

  /** The string vsnprintf leaves in a buffer, from its start, is the text's string cut to
      n-1 characters. */
  lemma FormattedString(b: seq<char>, t: seq<char>, n: int)
    requires 0 < n <= |b|
    ensures CStr(Splice(b, 0, Formatted(t, n))) == Cut(CStr(t), n - 1)
    ensures |t| < n - 1 ==> CStr(Splice(b, 0, Formatted(t, n))) == CStr(t)
  {
    FormattedCStr(b, 0, t, n);
    assert Splice(b, 0, Formatted(t, n))[0..] == Splice(b, 0, Formatted(t, n));
  }

  /** A text that fits with room to spare is the string of the buffer vsnprintf fills. */
  lemma FormattedWhole(b: seq<char>, t: seq<char>, n: int)
    requires 0 < n <= |b| && |t| < n - 1
    ensures CStr(Splice(b, 0, Formatted(t, n))) == CStr(t)
  {
    FormattedString(b, t, n);
  }

  /** appUnwindThrow's strcpy of " <- " and vsnprintf after it leave " <- " and the
      text's string, cut to the 508 characters left. */
  lemma ArrowThenFormatted(b0: seq<char>, b1: seq<char>, t: seq<char>)
    requires |b0| == UnwindSize && b1 == Splice(b0, 0, Arrow + [NUL])
    ensures CStr(Splice(b1, 4, Formatted(t, UnwindSize - 4))) == ThrowPart(true, t)
  {
    var b2 := Splice(b1, 4, Formatted(t, UnwindSize - 4));
    FormattedCStr(b1, 4, t, UnwindSize - 4);
    assert b2[..4] == Arrow by {
      forall i | 0 <= i < 4 ensures b2[i] == Arrow[i] {
        assert b1[0 + i] == (Arrow + [NUL])[i];
      }
    }
    CStrSplit(b2, 4);
  }

  /** The string appSprintf leaves in appUnwindPrefix's buffer is what it logs. */
  lemma PrefixRead(b: seq<char>, wasError: bool, name: seq<char>)
    requires |b| == UnwindSize
    ensures CStr(Splice(b, 0, Formatted(PrefixText(wasError, name), UnwindSize))) == PrefixPart(wasError, name)
  {
    var text := PrefixText(wasError, name);
    FormattedString(b, text, UnwindSize);
    CStrIs(text, |text|);
  }

  /** Clearing the first character empties the string. */
  lemma Cleared(s: seq<char>, s2: seq<char>)
    requires |s| > 0 && s2 == s[0 := NUL]
    ensures NUL in s2 && CStr(s2) == []
  {
    assert s2[0] == NUL;
  }

  /** GErrorHistory after LogHistory(part). */
  function HistoryBuf(b: seq<char>, part: seq<char>): (r: seq<char>)
    requires |b| == HistorySize && NUL in b
    ensures |r| == HistorySize
  {
    var b1 := if b[0] == NUL then Splice(b, 0, Fault + [NUL]) else b;
    assert b1[|Fault|] == NUL || b1 == b;
    CatnFrame(b1, HistorySize, part);
    Catn(b1, HistorySize, part)
  }

  /** The buffer LogHistory leaves holds the history string Logged describes. */
  lemma HistoryReads(b: seq<char>, part: seq<char>)
    requires |b| == HistorySize && NUL in b
    ensures NUL in HistoryBuf(b, part)
    ensures CStr(HistoryBuf(b, part)) == Logged(CStr(b), part)
  {
    if b[0] == NUL {
      Copied(b, Fault);
      Appended(Splice(b, 0, Fault + [NUL]), part);
    } else {
      Appended(b, part);
    }
  }

  /** strcpy of m leaves m as the string. */
  lemma Copied(b: seq<char>, m: seq<char>)
    requires |b| == HistorySize && NUL !in m && |m| < HistorySize
    ensures NUL in Splice(b, 0, m + [NUL]) && CStr(Splice(b, 0, m + [NUL])) == m
  {
    assert b[..0] == [];
    AppendAt(b, 0, m);
    assert Splice(b, 0, m + [NUL])[0 + |m|] == NUL;
  }

  /** appStrcatn into GErrorHistory leaves the string followed by part, cut to what fits. */
  lemma Appended(b1: seq<char>, part: seq<char>)
    requires |b1| == HistorySize && NUL in b1
    ensures NUL in Catn(b1, HistorySize, part)
    ensures CStr(Catn(b1, HistorySize, part)) == Cut(CStr(b1) + CStr(part), HistorySize - 1)
  {
    CutConcat(CStr(b1), CStr(part), HistorySize - 1);
    if HistorySize - |CStr(b1)| > 1 {
      CatnAppends(b1, HistorySize, part);
    } else {
      CatnFrame(b1, HistorySize, part);
    }
  }

  /** appError's strcpy of m and the appStrcatn after it leave m followed by part. */
  lemma CopyThenCat(b: seq<char>, m: seq<char>, part: seq<char>)
    requires |b| == HistorySize && NUL !in m && |m| < HistorySize
    ensures var b1 := Splice(b, 0, m + [NUL]);
      && NUL in b1
      && NUL in Catn(b1, HistorySize, part)
      && CStr(Catn(b1, HistorySize, part)) == Cut(m + CStr(part), HistorySize - 1)
  {
    Copied(b, m);
    Appended(Splice(b, 0, m + [NUL]), part);
  }

  /** appError leaves the message and a line break in GErrorHistory. */
  lemma ErrorRead(b: seq<char>, m: seq<char>)
    requires |b| == HistorySize && NUL !in m && |m| < HistorySize
    ensures var b1 := Splice(b, 0, m + [NUL]);
      && NUL in b1
      && NUL in Catn(b1, HistorySize, "\n")
      && CStr(Catn(b1, HistorySize, "\n")) == Cut(m + "\n", HistorySize - 1)
  {
    CopyThenCat(b, m, "\n");
    CStrIs("\n", 1);
  }

  // ---------------------------------------------------------------------------------------
  // The streams and NotifyBuf

  class Console {
    var logOpen: bool
    var out: Sinks
    var notifyBuf: array<char>

    ghost predicate Valid()
      reads this, notifyBuf
    {
      notifyBuf.Length == NotifySize && NUL in notifyBuf[..]
    }

    /** The notify header: the string NotifyBuf holds. */
    function Header(): seq<char>
      reads this, notifyBuf
    {
      CStr(notifyBuf[..])
    }

    /** No log file, nothing written, an empty header. */
    constructor ()
      ensures Valid() && fresh(notifyBuf) && !logOpen && out == Sinks([], [], [], [])
      ensures Header() == []
    {
      logOpen := false;
      out := Sinks([], [], [], []);
      notifyBuf := new char[NotifySize](_ => NUL);
      new;
      assert notifyBuf[..][0] == NUL;
    }

    /** appPrintf of the formatted text t. */
    method Printf(t: seq<char>) returns (st: Status)
      modifies this
      ensures logOpen == old(logOpen) && notifyBuf == old(notifyBuf)
      ensures st != Thrown && (st == Exited <==> |t| >= 4095)
      ensures PrintfStep(old(out), logOpen, t) == if st == Exited then None else Some(out)
      ensures st == Exited ==> out == old(out)
    {
      var buf := new char[PrintfSize];
      ghost var b0 := buf[..];
      var len := Vsnprintf(buf, 0, PrintfSize, t);
      if len < 0 || len >= PrintfSize - 1 {
        return Exited;
      }
      FormattedText(b0, t, PrintfSize);
      var text := buf[..len];
      out := out.(stdout := out.stdout + [text]);
      if logOpen {
        out := out.(log := out.log + [text]);
      }
      return Returned;
    }

    /** appOpenLogFile: succeeded says whether fopen succeeded; when it failed, the failure is
        reported through appPrintf. */
    method OpenLogFile(filename: seq<char>, succeeded: bool) returns (st: Status)
      modifies this
      ensures logOpen == succeeded && notifyBuf == old(notifyBuf)
      ensures succeeded ==> st == Returned && out == old(out)
      ensures !succeeded ==>
        PrintfStep(old(out), false, "Unable to open log \"" + CStr(filename) + "\"\n") ==
          if st == Exited then None else Some(out)
      ensures st == Exited ==> out == old(out)
    {
      logOpen := succeeded;
      if !succeeded {
        st := Printf("Unable to open log \"" + CStr(filename) + "\"\n");
      } else {
        st := Returned;
      }
    }

    /** appSetNotifyHeader: None (a null format) clears the header, a text sets it, cut to
        what NotifyBuf holds. */
    method SetNotifyHeader(fmt: Option<seq<char>>)
      requires Valid()
      modifies notifyBuf
      ensures Valid()
      ensures fmt.None? ==> notifyBuf[..] == old(notifyBuf[..])[0 := NUL]
      ensures fmt.Some? ==> notifyBuf[..] == Splice(old(notifyBuf[..]), 0, Formatted(fmt.value, NotifySize))
      ensures Header() == if fmt.None? then [] else Cut(CStr(fmt.value), NotifySize - 1)
    {
      if fmt.None? {
        notifyBuf[0] := NUL;
        assert notifyBuf[..][0] == NUL;
        return;
      }
      ghost var b0 := notifyBuf[..];
      var len := Vsnprintf(notifyBuf, 0, NotifySize, fmt.value);
      FormattedCStr(b0, 0, fmt.value, NotifySize);
      assert notifyBuf[..][0..] == notifyBuf[..];
      ghost var w := Formatted(fmt.value, NotifySize);
      assert notifyBuf[..][0 + (|w| - 1)] == NUL;
    }

    /** appNotify of the formatted text t; notifyOpened says whether notify.log could be
        opened. The header is cleared afterwards. */
    method Notify(t: seq<char>, notifyOpened: bool) returns (st: Status)
      requires Valid()
      modifies this, notifyBuf
      ensures Valid() && logOpen == old(logOpen) && notifyBuf == old(notifyBuf)
      ensures st != Thrown && (st == Exited <==> |t| >= 4095)
      ensures NotifyStep(old(out), logOpen, notifyOpened, old(Header()), t) ==
        if st == Exited then None else Some(out)
      ensures st == Exited ==> out == old(out) && notifyBuf[..] == old(notifyBuf[..])
      ensures st == Returned ==> notifyBuf[..] == old(notifyBuf[..])[0 := NUL] && Header() == []
    {
      var buf := new char[PrintfSize];
      ghost var b0 := buf[..];
      var len := Vsnprintf(buf, 0, PrintfSize, t);
      if len < 0 || len >= PrintfSize - 1 {
        return Exited;
      }
      FormattedString(b0, t, PrintfSize);
      var m := CStr(buf[..]);
      var hdr := CStr(notifyBuf[..]);
      Deliver(hdr, m, notifyOpened);
      ghost var n0 := notifyBuf[..];
      notifyBuf[0] := NUL;
      Cleared(n0, notifyBuf[..]);
      return Returned;
    }

    /** The printing part of appNotify: each stream gets the frame when there is a header
        (NotifyBuf[0] is set), then the message. */
    method Deliver(hdr: seq<char>, m: seq<char>, notifyOpened: bool)
      modifies this
      ensures logOpen == old(logOpen) && notifyBuf == old(notifyBuf)
      ensures out == Delivered(old(out), logOpen, notifyOpened, hdr, m)
    {
      if notifyOpened {
        out := out.(notify := out.notify + Framed(hdr, FileFrame(hdr), m + "\n"));
      }
      if logOpen {
        out := out.(log := out.log + Framed(hdr, Frame(hdr), "*** " + m + "\n"));
      }
      out := out.(stderr := out.stderr + Framed(hdr, Frame(hdr), "*** " + m + "\n"));
    }

    /** appSprintf into dest[0..size): the text cut to size-1 characters and terminated; a
        text that does not fit with room to spare is reported through appPrintf. */
    method Sprintf(dest: array<char>, size: int, fmt: seq<char>, t: seq<char>) returns (len: int, st: Status)
      requires 0 < size <= dest.Length && dest != notifyBuf
      modifies this, dest
      ensures logOpen == old(logOpen) && notifyBuf == old(notifyBuf)
      ensures dest[..] == Splice(old(dest[..]), 0, Formatted(t, size))
      ensures len == FormattedLen(t, size)
      ensures st != Thrown
      ensures |t| < size - 1 ==> st == Returned && out == old(out)
      ensures |t| >= size - 1 ==>
        PrintfStep(old(out), logOpen, OverflowReport(size, fmt)) == if st == Exited then None else Some(out)
      ensures st == Exited ==> out == old(out)
    {
      len := Vsnprintf(dest, 0, size, t);
      if len < 0 || len >= size - 1 {
        st := Printf(OverflowReport(size, fmt));
      } else {
        st := Returned;
      }
    }
  }

  // ---------------------------------------------------------------------------------------
  // GErrorHistory, WasError and GIsSwError

  class Guard {
    var history: array<char>
    var wasError: bool
    var isSwError: bool
    var console: Console

    ghost predicate Valid()
      reads this, history, console, console.notifyBuf
    {
      history.Length == HistorySize && NUL in history[..] && console.Valid() && history != console.notifyBuf
    }

    /** The history string and WasError. */
    function Trace(): TraceState
      reads this, history
    {
      TraceState(CStr(history[..]), wasError)
    }

    constructor (c: Console)
      requires c.Valid()
      ensures Valid() && fresh(history) && console == c && !wasError && !isSwError
      ensures Trace() == TraceState([], false)
    {
      history := new char[HistorySize](_ => NUL);
      wasError := false;
      isSwError := false;
      console := c;
      new;
      assert history[..][0] == NUL;
    }

    /** LogHistory(part). */
    method LogHistory(part: seq<char>)
      requires Valid()
      modifies history
      ensures Valid()
      ensures history[..] == HistoryBuf(old(history[..]), part)
      ensures CStr(history[..]) == Logged(old(CStr(history[..])), part)
    {
      ghost var b := history[..];
      if history[0] == NUL {
        WriteAt(history, 0, Fault + [NUL]);
      }
      Strcatn(history, HistorySize, part);
      HistoryReads(b, part);
    }

    /** appUnwindPrefix(name): logs "name:", after " <- " while an error is unwinding, and
        ends the unwinding error. */
    method UnwindPrefix(name: seq<char>)
      requires Valid()
      modifies this, history, console
      ensures Valid() && history == old(history) && console == old(console) && isSwError == old(isSwError)
      ensures console.logOpen == old(console.logOpen)
      ensures console.notifyBuf == old(console.notifyBuf) && console.notifyBuf[..] == old(console.notifyBuf[..])
      ensures Trace() == PrefixStep(old(Trace()), name)
      ensures history[..] == HistoryBuf(old(history[..]), PrefixPart(old(wasError), name))
      ensures |PrefixText(old(wasError), name)| < UnwindSize - 1 ==> console.out == old(console.out)
      ensures |PrefixText(old(wasError), name)| >= UnwindSize - 1 ==>
        PrintfStep(old(console.out), console.logOpen, OverflowReport(UnwindSize, PrefixFormat(old(wasError)))) ==
          Some(console.out)
    {
      var part := PrefixFormatted(name);
      LogHistory(part);
      wasError := false;
    }

    /** The appSprintf of appUnwindPrefix into its 512-character buffer: the string it leaves,
        and the overflow report when the expanded format does not fit. */
    method PrefixFormatted(name: seq<char>) returns (part: seq<char>)
      requires Valid()
      modifies console
      ensures Valid() && console.logOpen == old(console.logOpen)
      ensures console.notifyBuf == old(console.notifyBuf) && console.notifyBuf[..] == old(console.notifyBuf[..])
      ensures part == PrefixPart(wasError, name)
      ensures |PrefixText(wasError, name)| < UnwindSize - 1 ==> console.out == old(console.out)
      ensures |PrefixText(wasError, name)| >= UnwindSize - 1 ==>
        PrintfStep(old(console.out), console.logOpen, OverflowReport(UnwindSize, PrefixFormat(wasError))) ==
          Some(console.out)
    {
      var buf := new char[UnwindSize];
      ghost var b0 := buf[..];
      var fmt := PrefixFormat(wasError);
      var text := PrefixText(wasError, name);
      ReportFits(fmt);
      var len, st := console.Sprintf(buf, UnwindSize, fmt, text);
      PrefixRead(b0, wasError, name);
      part := CStr(buf[..]);
    }

    /** appUnwindThrow of the formatted text t: logs it, after " <- " while an error is
        unwinding (which starts with the first such call), and throws. */
    method UnwindThrow(t: seq<char>) returns (st: Status)
      requires Valid()
      modifies this, history
      ensures Valid() && history == old(history) && console == old(console) && isSwError == old(isSwError)
      ensures st == Thrown
      ensures Trace() == ThrowStep(old(Trace()), t)
      ensures history[..] == HistoryBuf(old(history[..]), ThrowPart(old(wasError), t))
    {
      var part := ThrowFormatted(t);
      wasError := true;
      LogHistory(part);
      return Thrown;
    }

    /** The formatting of appUnwindThrow into its 512-character buffer: " <- " and the text
        while an error is unwinding, the text alone otherwise, as much as fits. */
    method ThrowFormatted(t: seq<char>) returns (part: seq<char>)
      ensures part == ThrowPart(wasError, t)
    {
      var buf := new char[UnwindSize];
      ghost var b0 := buf[..];
      if wasError {
        WriteAt(buf, 0, Arrow + [NUL]);
        ghost var b1 := buf[..];
        var len := Vsnprintf(buf, 4, UnwindSize - 4, t);
        ArrowThenFormatted(b0, b1, t);
      } else {
        var len := Vsnprintf(buf, 0, UnwindSize, t);
        FormattedString(b0, t, UnwindSize);
      }
      part := CStr(buf[..]);
    }

    /** The history part of appError: strcpy of the message m, then appStrcatn of "\n". */
    method Record(m: seq<char>)
      requires Valid() && NUL !in m && |m| < HistorySize
      modifies history
      ensures Valid()
      ensures history[..] == Catn(Splice(old(history[..]), 0, m + [NUL]), HistorySize, "\n")
      ensures CStr(history[..]) == Cut(m + "\n", HistorySize - 1)
    {
      ghost var h0 := history[..];
      WriteAt(history, 0, m + [NUL]);
      ErrorRead(h0, m);
      Strcatn(history, HistorySize, "\n");
    }

    /** appError of the formatted text t in a guarded build: exits when t does not fit the
        buffer, otherwise marks a software error, replaces the history with t and a line
        break, and throws. The strcpy is unchecked: t must fit GErrorHistory. */
    method Error(t: seq<char>) returns (st: Status)
      requires Valid()
      requires |t| < 4095 ==> |CStr(t)| < HistorySize
      modifies this, history
      ensures Valid() && history == old(history) && console == old(console) && wasError == old(wasError)
      ensures st == Exited <==> |t| >= 4095
      ensures st == Exited ==> history[..] == old(history[..]) && isSwError == old(isSwError)
      ensures st != Exited ==>
        && st == Thrown && isSwError
        && history[..] == Catn(Splice(old(history[..]), 0, CStr(t) + [NUL]), HistorySize, "\n")
        && Trace() == ErrorStep(old(Trace()), t)
    {
      var buf := new char[PrintfSize];
      ghost var b0 := buf[..];
      var len := Vsnprintf(buf, 0, PrintfSize, t);
      if len < 0 || len >= PrintfSize - 1 {
        return Exited;
      }
      isSwError := true;
      FormattedWhole(b0, t, PrintfSize);
      Record(CStr(buf[..]));
      return Thrown;
    }
  }

  /** appUnwindPrefix's overflow report fits appPrintf's buffer. */
  lemma ReportFits(fmt: seq<char>)
    requires |fmt| <= |" <- %s:"|
    ensures |OverflowReport(UnwindSize, fmt)| < 4095
  {
    assert Decimal(5) == "5";
    assert Decimal(51) == "51";
    assert Decimal(512) == "512";
  }
}
