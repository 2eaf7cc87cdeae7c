/** Splitting cleaned bytes into lines: LF, CR LF and a lone CR each end a line. */
module LineSplitter {
  import opened Transducer

  const LF: u8 := 0x0A
  const CR: u8 := 0x0D

  predicate IsTerminator(b: u8) {
    b == LF || b == CR
  }

  /** Position of the first line terminator, or the length when there is none. */
  function LineEnd(s: seq<u8>): (e: nat)
    ensures e <= |s|
    ensures e < |s| ==> IsTerminator(s[e])
    ensures forall i :: 0 <= i < e ==> !IsTerminator(s[i])
  {
    if s == [] || IsTerminator(s[0]) then 0 else 1 + LineEnd(s[1..])
  }

  /** Length of the line ending at `e` together with its terminator. */
  function Consumed(s: seq<u8>, e: nat): (n: nat)
    requires e < |s|
    ensures e < n <= |s|
  {
    if s[e] == CR && e + 1 < |s| && s[e + 1] == LF then e + 2 else e + 1
  }

  /** What follows the first terminator; without one, the whole text. */
  function AfterFirstLine(s: seq<u8>): (t: seq<u8>)
    ensures LineEnd(s) < |s| ==> |t| < |s|
  {
    var e := LineEnd(s);
    if e == |s| then s else s[Consumed(s, e)..]
  }

  /** The terminated lines and the unterminated rest. */
  datatype Lines = Lines(lines: seq<seq<u8>>, rest: seq<u8>)

  function Split(s: seq<u8>): Lines
    decreases |s|
  {
    var e := LineEnd(s);
    if e == |s| then Lines([], s)
    else
      var t := Split(AfterFirstLine(s));
      Lines([s[..e]] + t.lines, t.rest)
  }

  lemma LineEndIs(s: seq<u8>, e: nat)
    requires e <= |s|
    requires e < |s| ==> IsTerminator(s[e])
    requires forall i :: 0 <= i < e ==> !IsTerminator(s[i])
    ensures LineEnd(s) == e
  {
  }

  predicate NoTerminators(s: seq<u8>) {
    forall x :: x in s ==> !IsTerminator(x)
  }

  lemma Unterminated(s: seq<u8>)
    ensures LineEnd(s) == |s| <==> NoTerminators(s)
  {
    if LineEnd(s) < |s| {
      assert s[LineEnd(s)] in s;
    }
  }

  /** A terminator-free suffix does not change where the first line ends. */
  lemma LineEndExtend(a: seq<u8>, b: seq<u8>)
    requires forall i :: 0 <= i < |b| ==> !IsTerminator(b[i])
    ensures LineEnd(a + b) == if LineEnd(a) < |a| then LineEnd(a) else |a + b|
  {
    LineEndIs(a + b, if LineEnd(a) < |a| then LineEnd(a) else |a + b|);
  }

  predicate EndsInCr(s: seq<u8>) {
    s != [] && s[|s| - 1] == CR
  }

  predicate StartsWithLf(s: seq<u8>) {
    s != [] && s[0] == LF
  }

  /** The two texts do not meet in the middle of a CR LF pair. */
  predicate NoCutCrLf(a: seq<u8>, b: seq<u8>) {
    !(EndsInCr(a) && StartsWithLf(b))
  }

  lemma EndOfAppend(a: seq<u8>, x: seq<u8>)
    ensures EndsInCr(a + x) <==> if x == [] then EndsInCr(a) else EndsInCr(x)
  {
    if x == [] {
      assert a + x == a;
    }
  }

  lemma StartOfAppend(x: seq<u8>, more: seq<u8>)
    ensures StartsWithLf(x + more) <==> if x == [] then StartsWithLf(more) else StartsWithLf(x)
  {
    if x == [] {
      assert x + more == more;
    }
  }

  lemma NoCrAtEnd(text: seq<u8>)
    requires LineEnd(text) == |text|
    ensures !EndsInCr(text)
  {
  }

  /** No boundary between these reads parts CR from LF. */
  predicate NoCuts(chunks: seq<seq<u8>>)
    decreases |chunks|
  {
    chunks == [] || (NoCutCrLf(chunks[0], Flatten(chunks[1..])) && NoCuts(chunks[1..]))
  }

  lemma TextBeforeCut(text: seq<u8>, x: seq<u8>, more: seq<u8>)
    requires LineEnd(text) == |text| && NoCutCrLf(x, more)
    ensures NoCutCrLf(text + x, more)
  {
    EndOfAppend(text, x);
    NoCrAtEnd(text);
  }

  lemma FirstLineAppend(a: seq<u8>, b: seq<u8>)
    requires LineEnd(a) < |a| && NoCutCrLf(a, b)
    ensures LineEnd(a + b) == LineEnd(a)
    ensures AfterFirstLine(a + b) == AfterFirstLine(a) + b
    ensures NoCutCrLf(AfterFirstLine(a), b)
    ensures (a + b)[..LineEnd(a)] == a[..LineEnd(a)]
  {
    var e := LineEnd(a);
    LineEndIs(a + b, e);
    assert Consumed(a + b, e) == Consumed(a, e);
    SlicesOfAppend(a, b, e);
    SlicesOfAppend(a, b, Consumed(a, e));
  }

  lemma SlicesOfAppend(a: seq<u8>, b: seq<u8>, n: nat)
    requires n <= |a|
    ensures (a + b)[..n] == a[..n] && (a + b)[n..] == a[n..] + b
    ensures EndsInCr(a[n..]) <==> n < |a| && EndsInCr(a)
  {
  }

  lemma PrependLine(l: seq<u8>, p: Lines, q: Lines)
    ensures [l] + (p.lines + q.lines) == ([l] + p.lines) + q.lines
  {
  }

  /** Splitting can be resumed at any cut that does not part CR from LF. */
  lemma {:induction false} SplitAppend(a: seq<u8>, b: seq<u8>)
    requires NoCutCrLf(a, b)
    ensures var p := Split(a);
            var q := Split(p.rest + b);
            Split(a + b) == Lines(p.lines + q.lines, q.rest)
    decreases |a|
  {
    var e := LineEnd(a);
    if e < |a| {
      FirstLineAppend(a, b);
      var t := AfterFirstLine(a);
      SplitAppend(t, b);
      var p := Split(t);
      PrependLine(a[..e], p, Split(p.rest + b));
    } else {
      assert [] + Split(a + b).lines == Split(a + b).lines;
    }
  }

  /** The rest holds no terminator and ends the text. */
  lemma RestShape(s: seq<u8>)
    ensures var r := Split(s).rest;
            LineEnd(r) == |r| && |r| <= |s| && r == s[|s| - |r|..]
  {
    RestUnterminated(s);
    RestIsSuffix(s);
  }

  lemma {:induction false} RestUnterminated(s: seq<u8>)
    ensures var r := Split(s).rest; LineEnd(r) == |r|
    decreases |s|
  {
    if LineEnd(s) < |s| {
      SplitStep(s);
      RestUnterminated(AfterFirstLine(s));
    }
  }

  predicate Ends(r: seq<u8>, s: seq<u8>) {
    |r| <= |s| && r == s[|s| - |r|..]
  }

  lemma {:induction false} RestIsSuffix(s: seq<u8>)
    ensures Ends(Split(s).rest, s)
    decreases |s|
  {
    if LineEnd(s) < |s| {
      SplitStep(s);
      RestIsSuffix(AfterFirstLine(s));
      SliceEnds(s, Consumed(s, LineEnd(s)));
      SuffixOfSuffix(s, AfterFirstLine(s), Split(s).rest);
    } else {
      SliceEnds(s, 0);
      assert s[0..] == s;
    }
  }

  lemma SliceEnds(s: seq<u8>, n: nat)
    requires n <= |s|
    ensures Ends(s[n..], s)
  {
  }

  lemma SuffixOfSuffix(s: seq<u8>, t: seq<u8>, r: seq<u8>)
    requires Ends(t, s) && Ends(r, t)
    ensures Ends(r, s)
  {
  }

  /** No line of at most `m` bytes has, cut anywhere, an unterminated part longer than `m`. */
  lemma {:induction false} SplitLinesFit(a: seq<u8>, b: seq<u8>, m: nat)
    requires forall l :: l in Split(a + b).lines ==> |l| <= m
    requires |Split(a + b).rest| <= m
    ensures |Split(a).rest| <= m
    decreases |a|
  {
    var e := LineEnd(a);
    if e == |a| {
      UnterminatedPrefix(a, b);
    } else if AfterFirstLine(a) != [] {
      FirstLineAppendRest(a, b);
      var t := Split(AfterFirstLine(a) + b);
      assert Split(a + b).lines == [(a + b)[..e]] + t.lines;
      assert forall l :: l in t.lines ==> l in Split(a + b).lines;
      SplitLinesFit(AfterFirstLine(a), b, m);
    }
  }

  /** The terminators, by byte value: 10, 13 10, and a 13 that no 10 follows. */
  lemma TerminatorTable(text: seq<u8>, b: seq<u8>)
    requires forall i :: 0 <= i < |text| ==> text[i] != 10 && text[i] != 13
    ensures Split(text) == Lines([], text)
    ensures var next := Lines([text] + Split(b).lines, Split(b).rest);
            && Split(text + [10] + b) == next
            && Split(text + [13, 10] + b) == next
            && (b == [] || b[0] != 10 ==> Split(text + [13] + b) == next)
  {
    LineEndIs(text, |text|);
    OneTerminator(text, [10], b);
    OneTerminator(text, [13, 10], b);
    if b == [] || b[0] != 10 {
      OneTerminator(text, [13], b);
    }
  }

  lemma OneTerminator(text: seq<u8>, end: seq<u8>, b: seq<u8>)
    requires forall i :: 0 <= i < |text| ==> text[i] != 10 && text[i] != 13
    requires end == [10] || end == [13, 10] || (end == [13] && (b == [] || b[0] != 10))
    ensures Split(text + end + b) == Lines([text] + Split(b).lines, Split(b).rest)
  {
    var s := text + end + b;
    assert s[|text|] == end[0];
    LineEndIs(s, |text|);
    assert s[..|text|] == text;
    assert s[|text| + |end|..] == b;
    assert Consumed(s, |text|) == |text| + |end| by {
      if |end| == 2 {
        assert s[|text| + 1] == end[1];
      } else if b != [] {
        assert s[|text| + 1] == b[0];
      }
    }
    SplitStep(s);
  }

  /** Taking the first line off a split text. */
  lemma SplitStep(s: seq<u8>)
    requires LineEnd(s) < |s|
    ensures var t := Split(AfterFirstLine(s));
            Split(s) == Lines([s[..LineEnd(s)]] + t.lines, t.rest) && Split(s).lines[1..] == t.lines
  {
  }

  lemma FirstLineAppendRest(a: seq<u8>, b: seq<u8>)
    requires LineEnd(a) < |a| && AfterFirstLine(a) != []
    ensures LineEnd(a + b) == LineEnd(a)
    ensures AfterFirstLine(a + b) == AfterFirstLine(a) + b
  {
    var e := LineEnd(a);
    LineEndIs(a + b, e);
    assert Consumed(a + b, e) == Consumed(a, e);
  }

  lemma UnterminatedPrefix(a: seq<u8>, b: seq<u8>)
    requires LineEnd(a) == |a|
    ensures var sp := Split(a + b);
            if sp.lines == [] then |a| <= |sp.rest| else |a| <= |sp.lines[0]|
  {
    var s := a + b;
    assert forall i :: 0 <= i < |a| ==> s[i] == a[i];
    assert LineEnd(s) >= |a|;
  }

  /** How many lines a split text has, the unterminated one included. */
  function LineCount(sp: Lines): nat {
    |sp.lines| + if sp.rest == [] then 0 else 1
  }

  /** Parting CR from LF yields one empty line more. */
  lemma {:induction false} CutCrLfSplit(a: seq<u8>, b: seq<u8>)
    requires !NoCutCrLf(a, b)
    ensures LineCount(Split(a + b)) + 1 == |Split(a).lines| + LineCount(Split(Split(a).rest + b))
    decreases |a|
  {
    FirstLineBeforeCut(a, b);
    if AfterFirstLine(a) == [] {
      LastLineCut(a, b);
    } else {
      CutCrLfSplit(AfterFirstLine(a), b);
      CountStep(a, b);
    }
  }

  lemma FirstLineBeforeCut(a: seq<u8>, b: seq<u8>)
    requires !NoCutCrLf(a, b)
    ensures LineEnd(a) < |a|
    ensures AfterFirstLine(a) != [] ==> !NoCutCrLf(AfterFirstLine(a), b)
  {
    if LineEnd(a) == |a| {
      NoCrAtEnd(a);
    } else {
      SlicesOfAppend(a, b, Consumed(a, LineEnd(a)));
    }
  }

  lemma CountStep(a: seq<u8>, b: seq<u8>)
    requires LineEnd(a) < |a| && AfterFirstLine(a) != []
    ensures LineCount(Split(a + b)) == 1 + LineCount(Split(AfterFirstLine(a) + b))
    ensures |Split(a).lines| == 1 + |Split(AfterFirstLine(a)).lines|
    ensures Split(a).rest == Split(AfterFirstLine(a)).rest
  {
    FirstLineAppendRest(a, b);
    SplitStep(a);
    SplitStep(a + b);
  }

  /** The case of a single line before the cut. */
  lemma LastLineCut(a: seq<u8>, b: seq<u8>)
    requires !NoCutCrLf(a, b) && AfterFirstLine(a) == []
    ensures LineCount(Split(a + b)) + 1 == |Split(a).lines| + LineCount(Split(Split(a).rest + b))
  {
    LastLineShape(a, b);
    SplitStep(a);
    SplitStep(b);
    SplitStep(a + b);
    assert [] + b == b;
  }

  lemma LastLineShape(a: seq<u8>, b: seq<u8>)
    requires !NoCutCrLf(a, b) && AfterFirstLine(a) == []
    ensures LineEnd(a + b) == LineEnd(a) < |a| && AfterFirstLine(a + b) == b[1..]
    ensures LineEnd(b) == 0 && AfterFirstLine(b) == b[1..]
  {
    var e := LineEnd(a);
    LineEndIs(b, 0);
    LineEndIs(a + b, e);
    assert Consumed(a, e) == e + 1 == |a|;
    assert Consumed(a + b, e) == |a| + 1;
    SuffixOfAppend(a, b);
  }

  lemma SuffixOfAppend(a: seq<u8>, b: seq<u8>)
    requires b != []
    ensures (a + b)[|a| + 1..] == b[1..]
  {
  }
}

/** The line decoder as functions on values: one call, the calls at end of input, and a whole stream. */
module Decoder {
  import opened Transducer
  import opened LineSplitter

  datatype Limits = Limits(maxLine: nat, maxBuffer: nat)

  datatype CodecItem = Line(bytes: seq<u8>) | LineTooLong

  /** Outcome of one call: more input needed, an item, or the fatal overflow error. */
  datatype Decoded = NoFrame | Frame(item: CodecItem) | Overflow

  datatype DecoderState = DecoderState(flags: Flags, discarding: bool, buf: seq<u8>)

  const FRESH: DecoderState := DecoderState(NORMAL, false, [])

  /** One call of `decode`. */
  function Decode(lim: Limits, st: DecoderState): (r: (DecoderState, Decoded))
    ensures r.1.Frame? ==> |r.0.buf| < |st.buf|
    ensures |r.0.buf| <= |st.buf|
    ensures r.1.Overflow? <==> |st.buf| > lim.maxBuffer
    ensures r.1.NoFrame? ==> |r.0.buf| <= lim.maxLine && (r.0.discarding ==> r.0.buf == [])
    decreases |st.buf|
  {
    if |st.buf| > lim.maxBuffer then (st, Overflow)
    else
      StripShrinks(st.flags, st.buf);
      var s := Strip(st.flags, st.buf);
      var buf := s.out + s.tail;
      var e := LineEnd(buf);
      if e < |buf| then
        var after := DecoderState(s.flags, false, buf[Consumed(buf, e)..]);
        if st.discarding then Decode(lim, after) else (after, Frame(Line(buf[..e])))
      else if st.discarding then (DecoderState(s.flags, true, []), NoFrame)
      else if |buf| > lim.maxLine then (DecoderState(s.flags, true, []), Frame(LineTooLong))
      else (DecoderState(s.flags, false, buf), NoFrame)
  }

  /** Length of the buffer without a cut-off command at its end. */
  function TrimmedEnd(buf: seq<u8>): (n: nat)
    ensures n <= |buf|
  {
    var n := |buf|;
    if n >= 2 && buf[n - 2] == IAC && IsNegotiation(buf[n - 1]) then n - 2
    else if n >= 1 && buf[n - 1] == IAC then n - 1
    else n
  }

  /** One call of `decode_eof`. */
  function DecodeEof(lim: Limits, st: DecoderState): (r: (DecoderState, Decoded))
    ensures r.1.Frame? ==> |r.0.buf| < |st.buf|
    ensures r.1.NoFrame? ==> r.0.buf == [] && !r.0.discarding
    ensures r.1.Overflow? <==> |st.buf| > lim.maxBuffer
  {
    var (s, d) := Decode(lim, st);
    if !d.NoFrame? then (s, d)
    else if s.buf == [] || s.discarding then (DecoderState(s.flags, false, []), NoFrame)
    else if s.flags.inSub || s.buf[0] == IAC then (DecoderState(NORMAL, s.discarding, []), NoFrame)
    else
      var end := TrimmedEnd(s.buf);
      var cleared := DecoderState(s.flags, s.discarding, []);
      if end == 0 then (cleared, NoFrame) else (cleared, Frame(Line(s.buf[..end])))
  }

  /** Calling `decode_eof` until it has nothing left. */
  function EofFrames(lim: Limits, st: DecoderState): seq<Decoded>
    decreases |st.buf|
  {
    var (s, d) := DecodeEof(lim, st);
    match d
    case NoFrame => []
    case Overflow => [Overflow]
    case Frame(_) => [d] + EofFrames(lim, s)
  }

  function Feed(st: DecoderState, chunk: seq<u8>): DecoderState {
    st.(buf := st.buf + chunk)
  }

  /**
    Everything a framed reader yields: `decode` until it wants more, then one read, and
    `decode_eof` until empty once the reads are used up. An overflow error ends the stream.
   */
  function Frames(lim: Limits, st: DecoderState, chunks: seq<seq<u8>>): seq<Decoded>
    decreases |chunks|, |st.buf|
  {
    var (s, d) := Decode(lim, st);
    match d
    case Overflow => [Overflow]
    case Frame(_) => [d] + Frames(lim, s, chunks)
    case NoFrame =>
      if chunks == [] then EofFrames(lim, s)
      else Frames(lim, Feed(s, chunks[0]), chunks[1..])
  }

  /** The items `decode` yields from one buffer until it wants more, and the state it stops in. */
  datatype Drained = Drained(frames: seq<Decoded>, state: DecoderState, overflow: bool)

  function Drain(lim: Limits, st: DecoderState): Drained
    decreases |st.buf|
  {
    var (s, d) := Decode(lim, st);
    match d
    case NoFrame => Drained([], s, false)
    case Overflow => Drained([], s, true)
    case Frame(_) =>
      var rest := Drain(lim, s);
      Drained([d] + rest.frames, rest.state, rest.overflow)
  }

  lemma {:induction false} FramesByDrain(lim: Limits, st: DecoderState, chunks: seq<seq<u8>>)
    ensures var d := Drain(lim, st);
            Frames(lim, st, chunks) ==
            d.frames + (if d.overflow then [Overflow]
                        else if chunks == [] then EofFrames(lim, d.state)
                        else Frames(lim, Feed(d.state, chunks[0]), chunks[1..]))
    decreases |st.buf|
  {
    var (s, d) := Decode(lim, st);
    if d.Frame? {
      FramesByDrain(lim, s, chunks);
      var rest := Drain(lim, s);
      assert Drain(lim, st).frames == [d] + rest.frames;
    }
  }

  /** The frames of a list of lines. */
  function LineFrames(lines: seq<seq<u8>>): (r: seq<Decoded>)
    ensures |r| == |lines|
  {
    seq(|lines|, i requires 0 <= i < |lines| => Frame(Line(lines[i])))
  }

  // ---------- A drained buffer, when re-stripping is harmless ----------

  /** Kept text a second pass leaves alone: see `RestripExact`. */
  predicate Settled(f: Flags, text: seq<u8>, tail: seq<u8>) {
    IAC !in text && IsIncomplete(tail) && (f.inSub ==> text == [] && tail == [])
  }

  lemma SettledStrip(f: Flags, text: seq<u8>, tail: seq<u8>)
    requires Settled(f, text, tail)
    ensures Strip(f, text + tail) == Stripped(text, tail, f)
  {
    if !f.inSub {
      PlainPassesThrough(f, text, tail);
      assert text + [] == text;
    }
  }

  /**
    A buffer whose lines survive being stripped once per call: what follows its first line, or
    all of it when no line ends, decodes to no IAC, and to nothing at all if it leaves a
    subnegotiation open.
   */
  predicate Safe(f: Flags, buf: seq<u8>) {
    var r := Strip(f, buf);
    var kept := AfterFirstLine(r.out);
    IAC !in kept && (r.flags.inSub ==> kept == [])
  }

  /** Where draining stops, given the text after the last line and what was held back. */
  function Stopped(lim: Limits, f: Flags, discarding: bool, rest: seq<u8>, tail: seq<u8>): DecoderState {
    if discarding || |rest| + |tail| > lim.maxLine then DecoderState(f, true, [])
    else DecoderState(f, false, rest + tail)
  }

  function TooLongNotice(lim: Limits, discarding: bool, rest: seq<u8>, tail: seq<u8>): seq<Decoded> {
    if !discarding && |rest| + |tail| > lim.maxLine then [Frame(LineTooLong)] else []
  }

  /** What draining one buffer must yield: strip it once, split it, drop the line being discarded. */
  function DrainSpec(lim: Limits, f: Flags, discarding: bool, text: seq<u8>, tail: seq<u8>): Drained {
    DrainOf(lim, f, discarding, Split(text), tail)
  }

  function DrainOf(lim: Limits, f: Flags, discarding: bool, sp: Lines, tail: seq<u8>): Drained {
    var still := discarding && sp.lines == [];
    var lines := if discarding && sp.lines != [] then sp.lines[1..] else sp.lines;
    Drained(LineFrames(lines) + TooLongNotice(lim, still, sp.rest, tail),
            Stopped(lim, f, still, sp.rest, tail), false)
  }

  lemma LineFramesCons(l: seq<u8>, lines: seq<seq<u8>>)
    ensures LineFrames([l] + lines) == [Frame(Line(l))] + LineFrames(lines)
  {
  }

  lemma DrainOfCons(lim: Limits, f: Flags, l: seq<u8>, sp: Lines, tail: seq<u8>)
    ensures var d := DrainOf(lim, f, false, sp, tail);
            var all := Lines([l] + sp.lines, sp.rest);
            && DrainOf(lim, f, true, all, tail) == d
            && DrainOf(lim, f, false, all, tail) == Drained([Frame(Line(l))] + d.frames, d.state, false)
  {
    LineFramesCons(l, sp.lines);
    assert ([l] + sp.lines)[1..] == sp.lines;
    var notice := TooLongNotice(lim, false, sp.rest, tail);
    assert [Frame(Line(l))] + LineFrames(sp.lines) + notice == [Frame(Line(l))] + (LineFrames(sp.lines) + notice);
  }

  lemma DrainSpecStep(lim: Limits, f: Flags, text: seq<u8>, tail: seq<u8>)
    requires LineEnd(text) < |text|
    ensures var d := DrainSpec(lim, f, false, AfterFirstLine(text), tail);
            && DrainSpec(lim, f, true, text, tail) == d
            && DrainSpec(lim, f, false, text, tail) ==
               Drained([Frame(Line(text[..LineEnd(text)]))] + d.frames, d.state, false)
  {
    SplitStep(text);
    DrainOfCons(lim, f, text[..LineEnd(text)], Split(AfterFirstLine(text)), tail);
  }

  /** One call takes the first line of the stripped text when there is one. */
  lemma FirstLine(lim: Limits, st: DecoderState)
    requires |st.buf| <= lim.maxBuffer
    requires var r := Strip(st.flags, st.buf); LineEnd(r.out) < |r.out|
    ensures var r := Strip(st.flags, st.buf);
            var after := DecoderState(r.flags, false, AfterFirstLine(r.out) + r.tail);
            && |after.buf| < |st.buf|
            && Decode(lim, st) == if st.discarding then Decode(lim, after)
                                  else (after, Frame(Line(r.out[..LineEnd(r.out)])))
  {
    var r := Strip(st.flags, st.buf);
    StripShrinks(st.flags, st.buf);
    TailShape(st.flags, st.buf);
    LineEndExtend(r.out, r.tail);
    var e := LineEnd(r.out);
    var buf := r.out + r.tail;
    assert buf[e] == r.out[e];
    assert Consumed(buf, e) == Consumed(r.out, e);
    assert buf[Consumed(buf, e)..] == AfterFirstLine(r.out) + r.tail;
    assert buf[..e] == r.out[..e];
  }

  /** Without a terminated line, draining stops at once, with a notice if the text is too long. */
  lemma NoLine(lim: Limits, st: DecoderState)
    requires |st.buf| <= lim.maxBuffer
    requires var r := Strip(st.flags, st.buf); LineEnd(r.out) == |r.out|
    ensures var r := Strip(st.flags, st.buf);
            Drain(lim, st) == Drained(TooLongNotice(lim, st.discarding, r.out, r.tail),
                                      Stopped(lim, r.flags, st.discarding, r.out, r.tail), false)
  {
    var r := Strip(st.flags, st.buf);
    TailShape(st.flags, st.buf);
    LineEndExtend(r.out, r.tail);
    var stopped := DecoderState(r.flags, true, []);
    assert Drain(lim, stopped) == Drained([], stopped, false);
  }

  lemma DrainStep(lim: Limits, st: DecoderState)
    requires |st.buf| <= lim.maxBuffer
    requires var r := Strip(st.flags, st.buf); LineEnd(r.out) < |r.out|
    ensures var r := Strip(st.flags, st.buf);
            var after := DecoderState(r.flags, false, AfterFirstLine(r.out) + r.tail);
            var d := Drain(lim, after);
            && |after.buf| < |st.buf|
            && Drain(lim, st) == if st.discarding then d
                                 else Drained([Frame(Line(r.out[..LineEnd(r.out)]))] + d.frames, d.state, d.overflow)
  {
    FirstLine(lim, st);
  }

  lemma {:induction false} DrainSettled(lim: Limits, f: Flags, text: seq<u8>, tail: seq<u8>)
    requires Settled(f, text, tail) && |text| + |tail| <= lim.maxBuffer
    ensures Drain(lim, DecoderState(f, false, text + tail)) == DrainSpec(lim, f, false, text, tail)
    decreases |text|
  {
    var st := DecoderState(f, false, text + tail);
    SettledStrip(f, text, tail);
    if LineEnd(text) < |text| {
      DrainStep(lim, st);
      DrainSettled(lim, f, AfterFirstLine(text), tail);
      DrainSpecStep(lim, f, text, tail);
    } else {
      NoLine(lim, st);
      NoLineSpec(lim, f, false, text, tail);
    }
  }

  lemma NoLineSpec(lim: Limits, f: Flags, discarding: bool, text: seq<u8>, tail: seq<u8>)
    requires LineEnd(text) == |text|
    ensures DrainSpec(lim, f, discarding, text, tail) ==
            Drained(TooLongNotice(lim, discarding, text, tail), Stopped(lim, f, discarding, text, tail), false)
  {
    assert LineFrames([]) + TooLongNotice(lim, discarding, text, tail) == TooLongNotice(lim, discarding, text, tail);
  }

  /** Draining a safe buffer yields what one strip and one split of it yield. */
  lemma DrainIsSplit(lim: Limits, st: DecoderState)
    requires |st.buf| <= lim.maxBuffer && Safe(st.flags, st.buf)
    ensures var r := Strip(st.flags, st.buf);
            Drain(lim, st) == DrainSpec(lim, r.flags, st.discarding, r.out, r.tail)
  {
    var r := Strip(st.flags, st.buf);
    TailShape(st.flags, st.buf);
    if LineEnd(r.out) < |r.out| {
      DrainStep(lim, st);
      DrainSettled(lim, r.flags, AfterFirstLine(r.out), r.tail);
      DrainSpecStep(lim, r.flags, r.out, r.tail);
    } else {
      NoLine(lim, st);
      NoLineSpec(lim, r.flags, st.discarding, r.out, r.tail);
    }
  }
}
