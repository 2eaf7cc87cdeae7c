/**
  What goes wrong because `decode` strips text it has already stripped, and exactly when it does
  not: for one read of any bytes, and for any reads of a stream that may end after each of them.
 */
module Restripping {
  import opened Transducer
  import opened LineSplitter
  import opened Decoder
  import opened Chunking

  function CountIac(s: seq<u8>): nat {
    if s == [] then 0 else (if s[0] == IAC then 1 else 0) + CountIac(s[1..])
  }

  lemma {:induction false} CountAppend(a: seq<u8>, b: seq<u8>)
    ensures CountIac(a + b) == CountIac(a) + CountIac(b)
    decreases |a|
  {
    if a == [] {
      assert a + b == b;
    } else {
      assert (a + b)[1..] == a[1..] + b;
      CountAppend(a[1..], b);
    }
  }

  lemma {:induction false} CountZero(s: seq<u8>)
    ensures CountIac(s) == 0 <==> IAC !in s
    decreases |s|
  {
    if s != [] {
      CountZero(s[1..]);
      assert s == [s[0]] + s[1..];
    }
  }

  lemma CountCons(b: u8, t: seq<u8>)
    ensures CountIac([b] + t) == CountIac(t) + if b == IAC then 1 else 0
  {
    assert ([b] + t)[1..] == t;
  }

  lemma CountDrop(s: seq<u8>, n: nat)
    requires n <= |s|
    ensures CountIac(s) == CountIac(s[..n]) + CountIac(s[n..])
  {
    CountAppend(s[..n], s[n..]);
    Rejoined(s, n);
  }

  lemma Rejoined(s: seq<u8>, n: nat)
    requires n <= |s|
    ensures s[..n] + s[n..] == s
  {
  }

  /** Each IAC that comes out cost two. */
  lemma {:induction false} IacsHalve(f: Flags, s: seq<u8>)
    ensures 2 * CountIac(Strip(f, s).out) <= CountIac(s)
    decreases |s|
  {
    if s != [] {
      if f.inSub {
        IacsHalve(SubnegotiationByte(f, s[0]), s[1..]);
      } else if s[0] != IAC {
        IacsHalve(f, s[1..]);
        CountCons(s[0], Strip(f, s[1..]).out);
      } else if |s| >= 2 {
        if s[1] == IAC {
          IacsHalve(f, s[2..]);
          CountCons(IAC, Strip(f, s[2..]).out);
          assert s[1..][1..] == s[2..];
        } else if IsNegotiation(s[1]) {
          if |s| > 2 {
            CountDrop(s, 3);
            IacsHalve(f, s[3..]);
          }
        } else {
          CountDrop(s, 2);
          IacsHalve(if s[1] == SB then Flags(true, false) else f, s[2..]);
        }
      }
    }
  }

  /** Stripping invents no bytes. */
  lemma {:induction false} OutputFromInput(f: Flags, s: seq<u8>)
    ensures forall x :: x in Strip(f, s).out ==> x in s
    decreases |s|
  {
    if s != [] {
      if f.inSub {
        OutputFromInput(SubnegotiationByte(f, s[0]), s[1..]);
      } else if s[0] != IAC {
        OutputFromInput(f, s[1..]);
      } else if |s| >= 2 {
        if !IsNegotiation(s[1]) {
          OutputFromInput(if s[1] == SB then Flags(true, false) else f, s[2..]);
        } else if |s| > 2 {
          OutputFromInput(f, s[3..]);
        }
      }
    }
  }

  /** What end of input makes of a kept buffer `b`: strip it once more, drop a cut-off command. */
  function Emitted(f: Flags, b: seq<u8>): seq<u8> {
    var r := Strip(f, b);
    var buf := r.out + r.tail;
    if buf == [] || r.flags.inSub || buf[0] == IAC then [] else buf[..TrimmedEnd(buf)]
  }

  /** A second pass over unterminated text leaves it unterminated. */
  lemma SecondPassUnterminated(f: Flags, text: seq<u8>, tail: seq<u8>)
    requires LineEnd(text) == |text| && IsIncomplete(tail)
    ensures var r := Strip(f, text + tail); LineEnd(r.out + r.tail) == |r.out + r.tail|
  {
    var b := text + tail;
    var r := Strip(f, b);
    Unterminated(text);
    assert NoTerminators(tail);
    assert NoTerminators(b);
    OutputFromInput(f, b);
    TailShape(f, b);
    assert NoTerminators(r.tail);
    Unterminated(r.out + r.tail);
  }

  /**
    One call at end of input on a buffer without a complete line, when no IAC was decoded into
    it: the text comes out without the cut-off command. Text behind an open subnegotiation is
    dropped, and the flags are reset exactly when something is dropped.
   */
  lemma EofTable(lim: Limits, st: DecoderState)
    requires |st.buf| <= lim.maxBuffer
    requires var r := Strip(st.flags, st.buf);
             LineEnd(r.out) == |r.out| && 255 !in r.out && |r.out| + |r.tail| <= lim.maxLine
    ensures var r := Strip(st.flags, st.buf);
            DecodeEof(lim, st) ==
            if st.discarding || (r.out == [] && r.tail == []) then (DecoderState(r.flags, false, []), NoFrame)
            else if r.out == [] || r.flags.inSub then (DecoderState(NORMAL, false, []), NoFrame)
            else (DecoderState(r.flags, false, []), Frame(Line(r.out)))
  {
    var r := Strip(st.flags, st.buf);
    TailShape(st.flags, st.buf);
    LineEndExtend(r.out, r.tail);
    if !st.discarding && r.out != [] && !r.flags.inSub {
      TrimmedText(r.out, r.tail);
    }
  }

  lemma TrimmedText(text: seq<u8>, tail: seq<u8>)
    requires text != [] && 255 !in text && IsIncomplete(tail)
    ensures var buf := text + tail;
            buf[0] != IAC && TrimmedEnd(buf) == |text| && buf[..|text|] == text
  {
    var buf := text + tail;
    assert forall i :: 0 <= i < |text| ==> buf[i] == text[i];
  }

  lemma EofDecode(lim: Limits, f: Flags, text: seq<u8>, tail: seq<u8>)
    requires LineEnd(text) == |text| && IsIncomplete(tail)
    requires |text| + |tail| <= lim.maxLine && |text| + |tail| <= lim.maxBuffer
    ensures var r := Strip(f, text + tail);
            Decode(lim, Resting(f, text, tail)) == (DecoderState(r.flags, false, r.out + r.tail), NoFrame)
  {
    SecondPassUnterminated(f, text, tail);
    StripShrinks(f, text + tail);
  }

  lemma EofEmits(lim: Limits, f: Flags, text: seq<u8>, tail: seq<u8>)
    requires LineEnd(text) == |text| && IsIncomplete(tail)
    requires |text| + |tail| <= lim.maxLine && |text| + |tail| <= lim.maxBuffer
    ensures EofFrames(lim, Resting(f, text, tail)) == LastLine(Emitted(f, text + tail))
  {
    EofDecode(lim, f, text, tail);
    EmptyEof(lim, Strip(f, text + tail).flags);
  }

  /** Cutting off the held-back command leaves at most the stripped output. */
  lemma EmittedIsPrefix(f: Flags, b: seq<u8>)
    ensures Emitted(f, b) <= Strip(f, b).out
  {
    TailShape(f, b);
    var r := Strip(f, b);
    var buf := r.out + r.tail;
    assert buf[..|r.out|] == r.out;
    if buf != [] {
      assert TrimmedEnd(buf) <= |r.out|;
      assert buf[..TrimmedEnd(buf)] == r.out[..TrimmedEnd(buf)];
    }
  }

  lemma CountPrefix(p: seq<u8>, s: seq<u8>)
    requires p <= s
    ensures CountIac(p) <= CountIac(s)
  {
    CountAppend(p, s[|p|..]);
    assert p + s[|p|..] == s;
  }

  /** The one way a single kept IAC can come out of a second pass: doubled by the held-back one. */
  lemma {:induction false} LoneIacReappears(f: Flags, text: seq<u8>, tail: seq<u8>)
    requires !f.inSub && IsIncomplete(tail) && CountIac(text) == 1
    requires CountIac(Strip(f, text + tail).out) > 0
    ensures tail != [] && text[|text| - 1] == IAC
    ensures Strip(f, text + tail) == Stripped(text + tail[1..], [], f)
    decreases |text|
  {
    if text[0] != IAC {
      TextByteFirst(f, text, tail);
      LoneIacReappears(f, text[1..], tail);
      assert text == [text[0]] + text[1..];
    } else if |text| == 1 {
      LoneIacAndTail(f, text, tail);
    } else {
      CommandThenTail(f, text, tail);
      assert false;
    }
  }

  lemma TextByteFirst(f: Flags, text: seq<u8>, tail: seq<u8>)
    requires !f.inSub && text != [] && text[0] != IAC
    ensures var r := Strip(f, text[1..] + tail);
            && Strip(f, text + tail) == Prepend([text[0]], r)
            && CountIac(Strip(f, text + tail).out) == CountIac(r.out)
            && CountIac(text) == CountIac(text[1..])
            && forall x: seq<u8> :: [text[0]] + (text[1..] + x) == text + x
  {
    assert (text + tail)[1..] == text[1..] + tail;
    CountCons(text[0], Strip(f, text[1..] + tail).out);
  }

  /** An IAC followed by more kept text is a command, and swallows itself. */
  lemma CommandThenTail(f: Flags, text: seq<u8>, tail: seq<u8>)
    requires !f.inSub && IsIncomplete(tail) && CountIac(text) == 1 && |text| >= 2 && text[0] == IAC
    ensures CountIac(Strip(f, text + tail).out) == 0
  {
    CountAppend(text, tail);
    CountTail(tail);
    CountZero(text[1..]);
    assert (text + tail)[1] == text[1] == text[1..][0];
    CommandSwallowed(f, text + tail);
  }

  lemma CountTail(tail: seq<u8>)
    requires IsIncomplete(tail)
    ensures CountIac(tail) <= 1
  {
    if |tail| == 2 {
      assert tail == [IAC] + [tail[1]];
      CountAppend([IAC], [tail[1]]);
    }
  }

  lemma LoneIacAndTail(f: Flags, text: seq<u8>, tail: seq<u8>)
    requires !f.inSub && IsIncomplete(tail) && |text| == 1 && text[0] == IAC
    requires CountIac(Strip(f, text + tail).out) > 0
    ensures tail != []
    ensures Strip(f, text + tail) == Stripped(text + tail[1..], [], f)
  {
    var s := text + tail;
    if tail != [] {
      assert s[2..] == tail[1..];
      if |tail| == 2 {
        assert tail[1..] == [tail[1]] && [tail[1]][1..] == [];
        assert Strip(f, []) == Stripped([], [], f);
        assert Strip(f, tail[1..]) == Prepend([tail[1]], Strip(f, []));
      }
    }
  }

  /** With at most one more IAC to come, a swallowed command leaves none to come out. */
  lemma CommandSwallowed(f: Flags, s: seq<u8>)
    requires !f.inSub && |s| >= 2 && s[0] == IAC && s[1] != IAC && CountIac(s) <= 2
    ensures CountIac(Strip(f, s).out) == 0
  {
    assert s[1..][1..] == s[2..];
    assert CountIac(s) == 1 + CountIac(s[2..]);
    if IsNegotiation(s[1]) {
      if |s| > 2 {
        assert s[2..][1..] == s[3..];
        IacsHalve(f, s[3..]);
      }
    } else {
      IacsHalve(if s[1] == SB then Flags(true, false) else f, s[2..]);
    }
  }

  /** A text holding an IAC, or held inside a subnegotiation, is not what end of input emits. */
  lemma UnsettledTextIsLost(f: Flags, text: seq<u8>, tail: seq<u8>)
    requires IsIncomplete(tail) && (f.inSub ==> tail == []) && text != []
    requires IAC in text || f.inSub
    ensures Emitted(f, text + tail) != text
  {
    EmittedIsPrefix(f, text + tail);
    if f.inSub {
      assert text + tail == text;
      BodyIsLost(f, text);
    } else {
      FewerIacs(f, text, tail);
      CountPrefix(Emitted(f, text + tail), Strip(f, text + tail).out);
      if CountIac(Strip(f, text + tail).out) >= CountIac(text) {
        LoneIacReappears(f, text, tail);
        assert TrimmedEnd(text + tail[1..]) < |text|;
      }
    }
  }

  /** A second pass keeps the number of IACs only if there was one, and it comes out. */
  lemma FewerIacs(f: Flags, text: seq<u8>, tail: seq<u8>)
    requires IsIncomplete(tail) && IAC in text
    ensures CountIac(text) >= 1
    ensures var n := CountIac(Strip(f, text + tail).out); n < CountIac(text) || (n == 1 && CountIac(text) == 1)
  {
    CountZero(text);
    CountAppend(text, tail);
    CountTail(tail);
    IacsHalve(f, text + tail);
  }

  /**
    A stream read at once that holds no complete line: end of input yields its text if and
    only if no escaped IAC was decoded into that text and no subnegotiation is open behind it.
   */
  lemma UnterminatedStreamExact(lim: Limits, s: seq<u8>)
    requires var r := Strip(NORMAL, s);
             LineEnd(r.out) == |r.out| && |r.out| + |r.tail| <= lim.maxLine
    requires |s| <= lim.maxBuffer
    ensures var r := Strip(NORMAL, s);
            Frames(lim, FRESH, [s]) == StreamFrames(NORMAL, s) <==> IAC !in r.out && (r.flags.inSub ==> r.out == [])
  {
    var r := Strip(NORMAL, s);
    TailShape(NORMAL, s);
    SingleUnterminatedRead(lim, s);
    EofEmits(lim, r.flags, r.out, r.tail);
    if IAC !in r.out && (r.flags.inSub ==> r.out == []) {
      RestingEof(lim, r.flags, r.out, r.tail);
    } else {
      UnsettledTextIsLost(r.flags, r.out, r.tail);
    }
  }

  lemma SingleUnterminatedRead(lim: Limits, s: seq<u8>)
    requires var r := Strip(NORMAL, s);
             LineEnd(r.out) == |r.out| && |r.out| + |r.tail| <= lim.maxLine
    requires |s| <= lim.maxBuffer
    ensures var r := Strip(NORMAL, s);
            && Frames(lim, FRESH, [s]) == EofFrames(lim, Resting(r.flags, r.out, r.tail))
            && StreamFrames(NORMAL, s) == LastLine(r.out)
            && |r.out| + |r.tail| <= lim.maxBuffer
  {
    var r := Strip(NORMAL, s);
    TailShape(NORMAL, s);
    StripShrinks(NORMAL, s);
    FirstRead(lim, s);
    UnterminatedFrames(lim, DecoderState(NORMAL, false, s));
    assert AllFrames(Lines([], r.out)) == LastLine(r.out);
  }

  // ---------- One read, exactly ----------

  /** An idle decoder with an empty buffer passes to the next read, or ends. */
  lemma IdleFrames(lim: Limits, f: Flags, c: seq<u8>, chunks: seq<seq<u8>>)
    ensures Frames(lim, DecoderState(f, false, []), []) == []
    ensures Frames(lim, DecoderState(f, false, []), [c] + chunks) == Frames(lim, DecoderState(f, false, c), chunks)
  {
    EmptyEof(lim, f);
    assert [] + c == c;
    assert ([c] + chunks)[1..] == chunks;
  }

  lemma FirstRead(lim: Limits, s: seq<u8>)
    ensures Frames(lim, FRESH, [s]) == Frames(lim, DecoderState(NORMAL, false, s), [])
  {
    assert [s] + [] == [s];
    IdleFrames(lim, NORMAL, s, []);
  }

  /** How many IACs the lines of these frames hold. */
  function CountFrames(frames: seq<Decoded>): nat {
    if frames == [] then 0
    else (if frames[0].Frame? && frames[0].item.Line? then CountIac(frames[0].item.bytes) else 0) + CountFrames(frames[1..])
  }

  lemma CountFirstFrame(d: Decoded, more: seq<Decoded>)
    ensures CountFrames([d] + more) ==
            (if d.Frame? && d.item.Line? then CountIac(d.item.bytes) else 0) + CountFrames(more)
  {
    assert ([d] + more)[1..] == more;
  }

  /** The first line and what follows it share out the IACs of a text. */
  lemma CountFirstLine(s: seq<u8>)
    requires LineEnd(s) < |s|
    ensures CountIac(s) == CountIac(s[..LineEnd(s)]) + CountIac(AfterFirstLine(s))
  {
    var e := LineEnd(s);
    var n := Consumed(s, e);
    CountDrop(s, e);
    CountDrop(s[e..], n - e);
    assert s[e..][n - e..] == s[n..];
    CountZero(s[e..][..n - e]);
  }

  /** Splitting loses no IAC. */
  lemma {:induction false} CountSplit(s: seq<u8>)
    ensures CountFrames(AllFrames(Split(s))) == CountIac(s)
    decreases |s|
  {
    var e := LineEnd(s);
    if e < |s| {
      var t := AfterFirstLine(s);
      CountFirstLine(s);
      CountSplit(t);
      FirstOfAllFrames(s);
      CountFirstFrame(Frame(Line(s[..e])), AllFrames(Split(t)));
    } else {
      assert AllFrames(Lines([], s)) == LastLine(s);
      if s != [] {
        CountFirstFrame(Frame(Line(s)), []);
        assert [Frame(Line(s))] + [] == [Frame(Line(s))];
      }
    }
  }

  lemma FirstOfAllFrames(s: seq<u8>)
    requires LineEnd(s) < |s|
    ensures AllFrames(Split(s)) == [Frame(Line(s[..LineEnd(s)]))] + AllFrames(Split(AfterFirstLine(s)))
  {
    SplitStep(s);
    AllFramesCons(s[..LineEnd(s)], Split(AfterFirstLine(s)));
  }

  lemma AllFramesCons(l: seq<u8>, sp: Lines)
    ensures AllFrames(Lines([l] + sp.lines, sp.rest)) == [Frame(Line(l))] + AllFrames(sp)
  {
    LineFramesCons(l, sp.lines);
  }

  /** Stripping kept text again brings out no more IACs than it holds. */
  lemma NoMoreIacs(f: Flags, text: seq<u8>, tail: seq<u8>)
    requires IsIncomplete(tail)
    ensures CountIac(Strip(f, text + tail).out) <= CountIac(text)
  {
    IacsHalve(f, text + tail);
    CountAppend(text, tail);
    CountTail(tail);
  }

  /** At end of input no call brings out more IACs than one pass over the buffer does. */
  lemma {:induction false} EofIacs(lim: Limits, st: DecoderState)
    requires !st.discarding
    ensures CountFrames(EofFrames(lim, st)) <= CountIac(Strip(st.flags, st.buf).out)
    decreases |st.buf|
  {
    var r := Strip(st.flags, st.buf);
    if |st.buf| <= lim.maxBuffer {
      TailShape(st.flags, st.buf);
      if LineEnd(r.out) < |r.out| {
        var kept := AfterFirstLine(r.out);
        var after := DecoderState(r.flags, false, kept + r.tail);
        FirstLine(lim, st);
        EofIacs(lim, after);
        NoMoreIacs(r.flags, kept, r.tail);
        CountFirstLine(r.out);
        CountFirstFrame(Frame(Line(r.out[..LineEnd(r.out)])), EofFrames(lim, after));
      } else {
        LastIacs(lim, st);
      }
    }
  }

  lemma LastIacs(lim: Limits, st: DecoderState)
    requires !st.discarding && |st.buf| <= lim.maxBuffer
    requires var r := Strip(st.flags, st.buf); LineEnd(r.out) == |r.out| && IsIncomplete(r.tail)
    ensures CountFrames(EofFrames(lim, st)) <= CountIac(Strip(st.flags, st.buf).out)
  {
    var r := Strip(st.flags, st.buf);
    var frames := EofFrames(lim, st);
    UnterminatedEof(lim, st);
    EmittedIsPrefix(st.flags, st.buf);
    CountPrefix(Emitted(st.flags, st.buf), r.out);
    if frames != [] {
      assert [frames[0]] + [] == frames;
      CountFirstFrame(frames[0], []);
    }
  }

  /** What end of input makes of a buffer without a complete line. */
  lemma UnterminatedEof(lim: Limits, st: DecoderState)
    requires !st.discarding && |st.buf| <= lim.maxBuffer
    requires var r := Strip(st.flags, st.buf); LineEnd(r.out) == |r.out| && IsIncomplete(r.tail)
    ensures var r := Strip(st.flags, st.buf);
            EofFrames(lim, st) == if |r.out| + |r.tail| > lim.maxLine then [Frame(LineTooLong)]
                                  else LastLine(Emitted(st.flags, st.buf))
  {
    var r := Strip(st.flags, st.buf);
    UnterminatedDecode(lim, st);
    EmptyEof(lim, r.flags);
    var stopped := DecoderState(r.flags, true, []);
    assert EofFrames(lim, stopped) == [];
  }

  lemma UnterminatedDecode(lim: Limits, st: DecoderState)
    requires !st.discarding && |st.buf| <= lim.maxBuffer
    requires var r := Strip(st.flags, st.buf); LineEnd(r.out) == |r.out| && IsIncomplete(r.tail)
    ensures var r := Strip(st.flags, st.buf);
            Decode(lim, st) == if |r.out| + |r.tail| > lim.maxLine then (DecoderState(r.flags, true, []), Frame(LineTooLong))
                               else (Resting(r.flags, r.out, r.tail), NoFrame)
  {
    var r := Strip(st.flags, st.buf);
    LineEndExtend(r.out, r.tail);
  }

  /** The same for a buffer still to be drained. */
  lemma {:induction false} LastFramesIacs(lim: Limits, st: DecoderState)
    requires !st.discarding
    ensures CountFrames(Frames(lim, st, [])) <= CountIac(Strip(st.flags, st.buf).out)
    decreases |st.buf|
  {
    var r := Strip(st.flags, st.buf);
    if |st.buf| <= lim.maxBuffer {
      TailShape(st.flags, st.buf);
      if LineEnd(r.out) < |r.out| {
        var kept := AfterFirstLine(r.out);
        var after := DecoderState(r.flags, false, kept + r.tail);
        FirstLine(lim, st);
        LastFramesIacs(lim, after);
        NoMoreIacs(r.flags, kept, r.tail);
        CountFirstLine(r.out);
        CountFirstFrame(Frame(Line(r.out[..LineEnd(r.out)])), Frames(lim, after, []));
      } else {
        UnterminatedFrames(lim, st);
        EofIacs(lim, DecoderState(r.flags, false, r.out + r.tail));
        NoMoreIacs(r.flags, r.out, r.tail);
      }
    }
  }

  lemma UnterminatedFrames(lim: Limits, st: DecoderState)
    requires !st.discarding && |st.buf| <= lim.maxBuffer
    requires var r := Strip(st.flags, st.buf); LineEnd(r.out) == |r.out| && IsIncomplete(r.tail)
    ensures var r := Strip(st.flags, st.buf);
            Frames(lim, st, []) == if |r.out| + |r.tail| > lim.maxLine then [Frame(LineTooLong)]
                                   else EofFrames(lim, Resting(r.flags, r.out, r.tail))
  {
    var r := Strip(st.flags, st.buf);
    UnterminatedDecode(lim, st);
    var stopped := DecoderState(r.flags, true, []);
    assert Frames(lim, stopped, []) == [];
  }

  /** Kept text with an IAC in it does not come out as it is split: an IAC is missing. */
  lemma KeptIacIsLost(lim: Limits, f: Flags, text: seq<u8>, tail: seq<u8>)
    requires IsIncomplete(tail) && (f.inSub ==> tail == []) && IAC in text
    ensures CountFrames(Frames(lim, DecoderState(f, false, text + tail), [])) < CountIac(text)
  {
    var st := DecoderState(f, false, text + tail);
    LastFramesIacs(lim, st);
    FewerIacs(f, text, tail);
    if CountIac(Strip(f, text + tail).out) >= CountIac(text) {
      IacsHalve(f, text + tail);
      CountAppend(text, tail);
      LoneIacReappears(f, text, tail);
      LoneIacIsLast(text, tail);
      LoneIacHeldBack(lim, f, text[..|text| - 1], tail);
    }
  }

  lemma LoneIacIsLast(text: seq<u8>, tail: seq<u8>)
    requires IsIncomplete(tail) && tail != [] && text != [] && CountIac(text) == 1 && text[|text| - 1] == IAC
    ensures var x := text[..|text| - 1];
            IAC !in x && text == x + [IAC] && text + tail[1..] == x + tail
  {
    var x := text[..|text| - 1];
    Regroup(x, text, tail);
    CountAppend(x, [IAC]);
    CountCons(IAC, []);
    assert [IAC] + [] == [IAC];
    CountZero(x);
  }

  lemma Regroup(x: seq<u8>, text: seq<u8>, tail: seq<u8>)
    requires text != [] && tail != [] && x == text[..|text| - 1] && text[|text| - 1] == tail[0] == IAC
    ensures text == x + [IAC] && text + tail[1..] == x + tail
  {
  }

  /** A single IAC that the held-back one brought out is itself held back by the next pass. */
  lemma LoneIacHeldBack(lim: Limits, f: Flags, x: seq<u8>, tail: seq<u8>)
    requires !f.inSub && IsIncomplete(tail) && tail != [] && IAC !in x
    requires Strip(f, x + [IAC] + tail) == Stripped(x + tail, [], f)
    ensures CountFrames(Frames(lim, DecoderState(f, false, x + [IAC] + tail), [])) == 0
  {
    if |x| + 1 + |tail| > lim.maxBuffer {
      CountFirstFrame(Overflow, []);
      assert [Overflow] + [] == [Overflow];
    } else if LineEnd(x) < |x| {
      LoneIacHeldBackLater(lim, f, x, tail);
    } else {
      LineEndExtend(x, tail);
      SettledStrip(f, x, tail);
      CountZero(x);
      LoneIacHeldBackNow(lim, DecoderState(f, false, x + [IAC] + tail), x + tail, f);
    }
  }

  lemma LoneIacHeldBackNow(lim: Limits, st: DecoderState, out: seq<u8>, f: Flags)
    requires !st.discarding && |st.buf| <= lim.maxBuffer && LineEnd(out) == |out|
    requires Strip(st.flags, st.buf) == Stripped(out, [], f) && CountIac(Strip(f, out).out) == 0
    ensures CountFrames(Frames(lim, st, [])) == 0
  {
    UnterminatedFrames(lim, st);
    EofIacs(lim, DecoderState(f, false, out));
    assert out + [] == out;
    CountFirstFrame(Frame(LineTooLong), []);
    assert [Frame(LineTooLong)] + [] == [Frame(LineTooLong)];
  }

  lemma LoneIacHeldBackLater(lim: Limits, f: Flags, x: seq<u8>, tail: seq<u8>)
    requires !f.inSub && IsIncomplete(tail) && tail != [] && IAC !in x && LineEnd(x) < |x|
    requires Strip(f, x + [IAC] + tail) == Stripped(x + tail, [], f) && |x| + 1 + |tail| <= lim.maxBuffer
    ensures CountFrames(Frames(lim, DecoderState(f, false, x + [IAC] + tail), [])) == 0
  {
    var kept := AfterFirstLine(x);
    var line := x[..LineEnd(x)];
    var after := DecoderState(f, false, kept + tail);
    FirstLineAppend(x, tail);
    assert kept + tail + [] == kept + tail;
    FirstLine(lim, DecoderState(f, false, x + [IAC] + tail));
    SettledStrip(f, kept, tail);
    LastFramesIacs(lim, after);
    CountZero(kept);
    CountZero(line);
    CountFirstFrame(Frame(Line(line)), Frames(lim, after, []));
  }

  /** Inside a subnegotiation text without IAC is swallowed, save what follows a pending IAC and SE. */
  lemma OpenBody(f: Flags, text: seq<u8>)
    requires f.inSub && text != [] && IAC !in text
    ensures if f.iacPending && text[0] == SE then Strip(f, text) == Stripped(text[1..], [], NORMAL)
            else Strip(f, text).out == [] && Strip(f, text).tail == []
  {
    if f.iacPending && text[0] == SE {
      PlainText(text[1..]);
    } else {
      SubnegotiationEndsAtFirstIacSe(f, text);
    }
  }

  /** Text kept behind an open subnegotiation does not come out as it is split. */
  lemma OpenTextIsLost(lim: Limits, f: Flags, text: seq<u8>)
    requires f.inSub && text != [] && IAC !in text && |text| <= lim.maxBuffer
    ensures Frames(lim, DecoderState(f, false, text), []) != AllFrames(Split(text))
  {
    var st := DecoderState(f, false, text);
    OpenBody(f, text);
    if f.iacPending && text[0] == SE {
      SeIsLost(lim, f, text);
    } else {
      UnterminatedFrames(lim, st);
      EmptyEof(lim, Strip(f, text).flags);
    }
  }

  /** The one body that is not swallowed whole loses its first byte, and the first line shows it. */
  lemma SeIsLost(lim: Limits, f: Flags, text: seq<u8>)
    requires text != [] && text[0] == SE && |text| <= lim.maxBuffer && IAC !in text
    requires Strip(f, text) == Stripped(text[1..], [], NORMAL)
    ensures Frames(lim, DecoderState(f, false, text), []) != AllFrames(Split(text))
  {
    var st := DecoderState(f, false, text);
    var t := text[1..];
    if LineEnd(t) < |t| {
      FirstLine(lim, st);
      FirstOfAllFrames(text);
      DifferentFirst(t[..LineEnd(t)], text[..LineEnd(text)],
                     Frames(lim, DecoderState(NORMAL, false, AfterFirstLine(t) + []), []), AllFrames(Split(AfterFirstLine(text))));
    } else {
      UnterminatedFrames(lim, st);
      assert t + [] == t;
      ShorterLastLine(lim, text);
    }
  }

  lemma DifferentFirst(a: seq<u8>, b: seq<u8>, x: seq<Decoded>, y: seq<Decoded>)
    requires |a| != |b|
    ensures [Frame(Line(a))] + x != [Frame(Line(b))] + y
  {
    assert ([Frame(Line(a))] + x)[0] != ([Frame(Line(b))] + y)[0];
  }

  lemma ShorterLastLine(lim: Limits, text: seq<u8>)
    requires text != [] && |text| <= lim.maxBuffer && IAC !in text && !IsTerminator(text[0])
    requires LineEnd(text[1..]) == |text[1..]|
    ensures AllFrames(Split(text)) != [Frame(LineTooLong)]
    ensures |text[1..]| <= lim.maxLine ==> EofFrames(lim, Resting(NORMAL, text[1..], [])) != AllFrames(Split(text))
  {
    assert AllFrames(Lines([], text)) == LastLine(text);
    if |text[1..]| <= lim.maxLine {
      RestingEof(lim, NORMAL, text[1..], []);
    }
  }

  /** A line that is not the first of its buffer is split off text stripped twice: what is lost then. */
  lemma KeptTextIsLost(lim: Limits, f: Flags, text: seq<u8>, tail: seq<u8>)
    requires IsIncomplete(tail) && (f.inSub ==> tail == []) && |text| + |tail| <= lim.maxBuffer
    requires IAC in text || (f.inSub && text != [])
    ensures Frames(lim, DecoderState(f, false, text + tail), []) != AllFrames(Split(text))
  {
    if IAC in text {
      KeptIacIsLost(lim, f, text, tail);
      CountSplit(text);
    } else {
      OpenTextIsLost(lim, f, text);
      assert text + tail == text;
    }
  }

  lemma UnsafeReadShows(lim: Limits, f: Flags, s: seq<u8>)
    requires |s| <= lim.maxBuffer && !Safe(f, s)
    ensures Frames(lim, DecoderState(f, false, s), []) != StreamFrames(f, s)
  {
    var st := DecoderState(f, false, s);
    var r := Strip(f, s);
    TailShape(f, s);
    StripShrinks(f, s);
    if LineEnd(r.out) < |r.out| {
      var kept := AfterFirstLine(r.out);
      var after := DecoderState(r.flags, false, kept + r.tail);
      FirstLine(lim, st);
      FirstOfAllFrames(r.out);
      KeptTextIsLost(lim, r.flags, kept, r.tail);
      assert Frames(lim, st, [])[1..] == Frames(lim, after, []);
      assert StreamFrames(f, s)[1..] == AllFrames(Split(kept));
    } else {
      UnterminatedFrames(lim, st);
      LoneRestIsLost(lim, r.flags, r.out, r.tail);
    }
  }

  /** Kept text that is all there is does not survive end of input. */
  lemma LoneRestIsLost(lim: Limits, f: Flags, text: seq<u8>, tail: seq<u8>)
    requires LineEnd(text) == |text| && IsIncomplete(tail) && (f.inSub ==> tail == [])
    requires IAC in text || (f.inSub && text != [])
    requires |text| + |tail| <= lim.maxBuffer
    ensures AllFrames(Split(text)) != [Frame(LineTooLong)]
    ensures |text| + |tail| <= lim.maxLine ==> EofFrames(lim, Resting(f, text, tail)) != AllFrames(Split(text))
  {
    assert AllFrames(Lines([], text)) == LastLine(text);
    if |text| + |tail| <= lim.maxLine {
      EofEmits(lim, f, text, tail);
      UnsettledTextIsLost(f, text, tail);
    }
  }

  /**
    From any resting decoder, one last read decodes to the lines of what is held and read if and
    only if it fits the buffer, leaves no more than a line unterminated, and is safe.
   */
  lemma LastReadExact(lim: Limits, f: Flags, text: seq<u8>, tail: seq<u8>, c: seq<u8>)
    requires AtRest(lim, f, text, tail)
    ensures var buf := text + tail + c;
            Frames(lim, Resting(f, text, tail), [c]) == StreamFrames(f, buf) <==> ReadOk(lim, f, buf)
  {
    var buf := text + tail + c;
    StreamsAreNotSpoilt(f, buf);
    LastReadFrames(lim, f, text, tail, c);
    if |buf| > lim.maxBuffer {
      assert Overflow in Frames(lim, DecoderState(f, false, buf), []);
    } else if !Safe(f, buf) {
      UnsafeReadShows(lim, f, buf);
    } else if !ReadOk(lim, f, buf) {
      SpoiltRead(lim, f, text, tail, [c]);
    } else {
      OneReadOk(lim, f, text, tail, c);
      DecodesTheStream(lim, f, text, tail, [c]);
      FlattenAfter(text + tail, [c]);
      assert buf + [] == buf;
    }
  }

  lemma LastReadFrames(lim: Limits, f: Flags, text: seq<u8>, tail: seq<u8>, c: seq<u8>)
    requires AtRest(lim, f, text, tail)
    ensures Frames(lim, Resting(f, text, tail), [c]) == Frames(lim, DecoderState(f, false, text + tail + c), [])
  {
    RestingDecode(lim, f, text, tail);
    assert [c][1..] == [];
  }

  /** What one read must meet, given everything held and read. */
  predicate ReadOk(lim: Limits, f: Flags, buf: seq<u8>) {
    var r := Strip(f, buf);
    |buf| <= lim.maxBuffer && |Split(r.out).rest| + |r.tail| <= lim.maxLine && Safe(f, buf)
  }

  lemma OneReadOk(lim: Limits, f: Flags, text: seq<u8>, tail: seq<u8>, c: seq<u8>)
    requires ReadOk(lim, f, text + tail + c)
    ensures ReadsOk(lim, f, text, tail, [c])
  {
    var r := Strip(f, text + tail + c);
    TailIsStable(f, text + tail + c);
    assert [c][1..] == [] && r.tail + [] == r.tail;
    assert ReadsOk(lim, r.flags, Split(r.out).rest, r.tail, []);
  }

  /**
    A stream of any bytes read at once decodes to its lines if and only if it fits the buffer,
    leaves no more than a line unterminated, and is safe: behind its first line no escaped IAC
    was decoded, and no subnegotiation is open behind any text there.
   */
  lemma SingleReadExact(lim: Limits, s: seq<u8>)
    ensures Frames(lim, FRESH, [s]) == StreamFrames(NORMAL, s) <==>
            |s| <= lim.maxBuffer && Held(s) <= lim.maxLine && Safe(NORMAL, s)
  {
    assert [] + [] + s == s;
    LastReadExact(lim, NORMAL, [], [], s);
  }

  // ---------- Any bytes in any reads, exactly ----------

  /** These reads decode to the lines of their stream. */
  predicate Faithful(lim: Limits, chunks: seq<seq<u8>>) {
    Frames(lim, FRESH, chunks) == StreamFrames(NORMAL, Flatten(chunks))
  }

  /** What a decoder at rest holds is what one pass over `p`, read before, has left. */
  predicate RestOf(p: seq<u8>, f: Flags, text: seq<u8>, tail: seq<u8>) {
    var r := Strip(NORMAL, p);
    f == r.flags && tail == r.tail && text == Split(r.out).rest
  }

  /** Stripping what is held and read, seen from all of the stream so far. */
  lemma RestAfterSafeRead(p: seq<u8>, f: Flags, text: seq<u8>, tail: seq<u8>, c: seq<u8>)
    requires RestOf(p, f, text, tail) && Settled(f, text, tail)
    ensures var next := Strip(f, tail + c);
            Strip(f, text + tail + c) == Prepend(text, next) && Strip(NORMAL, p + c) == Prepend(Strip(NORMAL, p).out, next)
  {
    StripAppend(NORMAL, p, c);
    RestripExact(text, tail, f);
    assert RestripHarmless(text, tail, f);
    assert Strip(f, tail + c) == Strip(f, tail + c);
  }

  /** The one-pass view and the decoder's view agree on the rest and on the cut after a read. */
  lemma RestOfRead(p: seq<u8>, f: Flags, text: seq<u8>, tail: seq<u8>, c: seq<u8>, more: seq<u8>)
    requires RestOf(p, f, text, tail) && Settled(f, text, tail)
    requires CutOk(p, c + more) && CutOk(p + c, more)
    ensures var r := Strip(f, text + tail + c);
            && RestOf(p + c, r.flags, Split(r.out).rest, r.tail)
            && NoCutCrLf(r.out, Strip(r.flags, r.tail + more).out)
  {
    var out := Strip(NORMAL, p).out;
    var next := Strip(f, tail + c);
    var later := Strip(next.flags, next.tail + more).out;
    RestAfterSafeRead(p, f, text, tail, c);
    StripAppend(f, tail + c, more);
    Regrouped(tail, c, more);
    ShorterFuture(out, next.out, later);
    SplitAppend(out, next.out);
    RestShape(out);
    SameCut(out, text, next.out, later);
  }

  lemma ShorterFuture(a: seq<u8>, x: seq<u8>, more: seq<u8>)
    requires NoCutCrLf(a, x + more)
    ensures NoCutCrLf(a, x)
  {
    StartOfAppend(x, more);
  }

  /** A cut that is fine before all that follows is fine before less of it. */
  lemma CutBeforeLess(out: seq<u8>, f: Flags, tail: seq<u8>, less: seq<u8>, rest: seq<u8>)
    requires NoCutCrLf(out, Strip(f, tail + (less + rest)).out)
    ensures NoCutCrLf(out, Strip(f, tail + less).out)
  {
    Regrouped(tail, less, rest);
    StripAppend(f, tail + less, rest);
    ShorterFuture(out, Strip(f, tail + less).out, Strip(Strip(f, tail + less).flags, Strip(f, tail + less).tail + rest).out);
  }

  lemma {:induction false} FlattenPrefix(chunks: seq<seq<u8>>, k: nat)
    requires k <= |chunks|
    ensures Flatten(chunks) == Flatten(chunks[..k]) + Flatten(chunks[k..])
    decreases k
  {
    if k > 0 {
      FlattenPrefix(chunks[1..], k - 1);
      assert chunks[..k][1..] == chunks[1..][..k - 1] && chunks[1..][k - 1..] == chunks[k..];
      Regrouped(chunks[0], Flatten(chunks[1..][..k - 1]), Flatten(chunks[k..]));
    } else {
      assert chunks[..0] == [] && chunks[0..] == chunks;
      assert [] + Flatten(chunks) == Flatten(chunks);
    }
  }

  /** One read done, the same first `k` of the later reads follow in both views. */
  lemma PrefixStep(lim: Limits, f: Flags, text: seq<u8>, tail: seq<u8>, chunks: seq<seq<u8>>, k: nat)
    requires AtRest(lim, f, text, tail) && chunks != [] && k < |chunks|
    requires ReadOk(lim, f, text + tail + chunks[0])
    requires var r := Strip(f, text + tail + chunks[0]);
             NoCutCrLf(r.out, Strip(r.flags, r.tail + Flatten(chunks[1..])).out)
    ensures var r := Strip(f, text + tail + chunks[0]);
            var sp := Split(r.out);
            && Frames(lim, Resting(f, text, tail), chunks[..k + 1]) ==
               LineFrames(sp.lines) + Frames(lim, Resting(r.flags, sp.rest, r.tail), chunks[1..][..k])
            && StreamFrames(f, text + tail + Flatten(chunks[..k + 1])) ==
               LineFrames(sp.lines) + StreamFrames(r.flags, sp.rest + r.tail + Flatten(chunks[1..][..k]))
  {
    var first := chunks[..k + 1];
    var r := Strip(f, text + tail + chunks[0]);
    assert first[0] == chunks[0] && first[1..] == chunks[1..][..k];
    OneRead(lim, f, text, tail, first);
    FlattenPrefix(chunks[1..], k);
    CutBeforeLess(r.out, r.flags, r.tail, Flatten(first[1..]), Flatten(chunks[1..][k..]));
    FlattenAfter(text + tail, first);
    StreamStep(f, text + tail + chunks[0], Flatten(first[1..]));
  }

  /** From this state the decoder goes wrong on the stream that ends after `k` reads. */
  predicate WrongAt(lim: Limits, f: Flags, text: seq<u8>, tail: seq<u8>, chunks: seq<seq<u8>>, k: nat)
    requires k <= |chunks|
  {
    Frames(lim, Resting(f, text, tail), chunks[..k]) != StreamFrames(f, text + tail + Flatten(chunks[..k]))
  }

  /** A decoder at rest after `p`, and reads of which one breaks a condition, though none by its cut. */
  predicate Unfit(lim: Limits, p: seq<u8>, f: Flags, text: seq<u8>, tail: seq<u8>, chunks: seq<seq<u8>>) {
    && AtRest(lim, f, text, tail) && RestOf(p, f, text, tail)
    && CutsOk(p, chunks) && !ReadsOk(lim, f, text, tail, chunks)
  }

  /** Then the decoder goes wrong on the stream up to the first such read. */
  lemma {:induction false} UnfitPrefixShows(lim: Limits, p: seq<u8>, f: Flags, text: seq<u8>, tail: seq<u8>, chunks: seq<seq<u8>>)
    returns (k: nat)
    requires Unfit(lim, p, f, text, tail, chunks)
    ensures k <= |chunks| && WrongAt(lim, f, text, tail, chunks, k)
    decreases |chunks|
  {
    if ReadOk(lim, f, text + tail + chunks[0]) {
      var f', text', tail' := UnfitLater(lim, p, f, text, tail, chunks);
      k := UnfitPrefixShows(lim, p + chunks[0], f', text', tail', chunks[1..]);
      LaterReadShows(lim, f, text, tail, chunks, f', text', tail', k);
      k := k + 1;
    } else {
      UnfitReadShows(lim, f, text, tail, chunks);
      k := 1;
    }
  }

  lemma UnfitLater(lim: Limits, p: seq<u8>, f: Flags, text: seq<u8>, tail: seq<u8>, chunks: seq<seq<u8>>)
    returns (f': Flags, text': seq<u8>, tail': seq<u8>)
    requires chunks != [] && Unfit(lim, p, f, text, tail, chunks) && ReadOk(lim, f, text + tail + chunks[0])
    ensures Unfit(lim, p + chunks[0], f', text', tail', chunks[1..])
    ensures LaterState(f, text, tail, chunks, f', text', tail')
  {
    var r := Strip(f, text + tail + chunks[0]);
    f', text', tail' := r.flags, Split(r.out).rest, r.tail;
    FirstCuts(p, chunks);
    RestOfRead(p, f, text, tail, chunks[0], Flatten(chunks[1..]));
    SafeLeavesRest(lim, f, text + tail + chunks[0]);
  }

  lemma FirstCuts(p: seq<u8>, chunks: seq<seq<u8>>)
    requires chunks != [] && CutsOk(p, chunks)
    ensures CutOk(p, chunks[0] + Flatten(chunks[1..])) && CutOk(p + chunks[0], Flatten(chunks[1..]))
  {
    assert CutsOk(p + chunks[0], chunks[1..]);
  }

  /** The state after the first read, which does not end between CR and LF. */
  predicate LaterState(f: Flags, text: seq<u8>, tail: seq<u8>, chunks: seq<seq<u8>>, f': Flags, text': seq<u8>, tail': seq<u8>)
    requires chunks != []
  {
    var r := Strip(f, text + tail + chunks[0]);
    && f' == r.flags && text' == Split(r.out).rest && tail' == r.tail
    && NoCutCrLf(r.out, Strip(r.flags, r.tail + Flatten(chunks[1..])).out)
  }

  lemma LaterReadShows(lim: Limits, f: Flags, text: seq<u8>, tail: seq<u8>, chunks: seq<seq<u8>>, f': Flags, text': seq<u8>,
                       tail': seq<u8>, k: nat)
    requires AtRest(lim, f, text, tail) && k < |chunks| && ReadOk(lim, f, text + tail + chunks[0])
    requires LaterState(f, text, tail, chunks, f', text', tail') && WrongAt(lim, f', text', tail', chunks[1..], k)
    ensures WrongAt(lim, f, text, tail, chunks, k + 1)
  {
    var r := Strip(f, text + tail + chunks[0]);
    PrefixStep(lim, f, text, tail, chunks, k);
    SamePrefix(LineFrames(Split(r.out).lines), Frames(lim, Resting(f', text', tail'), chunks[1..][..k]),
               StreamFrames(f', text' + tail' + Flatten(chunks[1..][..k])));
  }

  lemma SamePrefix<T>(p: seq<T>, x: seq<T>, y: seq<T>)
    requires x != y
    ensures p + x != p + y
  {
    assert (p + x)[|p|..] == x && (p + y)[|p|..] == y;
  }

  lemma UnfitReadShows(lim: Limits, f: Flags, text: seq<u8>, tail: seq<u8>, chunks: seq<seq<u8>>)
    requires AtRest(lim, f, text, tail) && chunks != [] && !ReadOk(lim, f, text + tail + chunks[0])
    ensures WrongAt(lim, f, text, tail, chunks, 1)
  {
    var c := chunks[0];
    LastReadExact(lim, f, text, tail, c);
    FlattenAfter(text + tail, [c]);
    assert text + tail + c + [] == text + tail + c;
    assert chunks[..1] == [c];
  }

  /** Reads that meet the conditions still meet them when the stream ends earlier. */
  lemma {:induction false} OkPrefix(lim: Limits, f: Flags, text: seq<u8>, tail: seq<u8>, chunks: seq<seq<u8>>, k: nat)
    requires AtRest(lim, f, text, tail) && ReadsOk(lim, f, text, tail, chunks) && k <= |chunks|
    ensures Frames(lim, Resting(f, text, tail), chunks[..k]) == StreamFrames(f, text + tail + Flatten(chunks[..k]))
    decreases k
  {
    if k == 0 {
      assert chunks[..0] == [];
      DecodesTheStream(lim, f, text, tail, []);
    } else {
      var r := Strip(f, text + tail + chunks[0]);
      SafeLeavesRest(lim, f, text + tail + chunks[0]);
      OkPrefix(lim, r.flags, Split(r.out).rest, r.tail, chunks[1..], k - 1);
      PrefixStep(lim, f, text, tail, chunks, k - 1);
    }
  }

  /**
    Any bytes in any reads that keep CR LF together: the decoder is right wherever the stream
    may end if and only if every read meets the conditions.
   */
  lemma EveryPrefixExact(lim: Limits, chunks: seq<seq<u8>>)
    requires CutsOk([], chunks)
    ensures (forall k :: 0 <= k <= |chunks| ==> Faithful(lim, chunks[..k])) <==> ReadsOk(lim, NORMAL, [], [], chunks)
  {
    assert forall s: seq<u8> :: [] + [] + s == s;
    if ReadsOk(lim, NORMAL, [], [], chunks) {
      forall k | 0 <= k <= |chunks|
        ensures Faithful(lim, chunks[..k])
      {
        OkPrefix(lim, NORMAL, [], [], chunks, k);
      }
    } else {
      var k := UnfitPrefixShows(lim, [], NORMAL, [], [], chunks);
      assert !Faithful(lim, chunks[..k]);
    }
  }

  // ---------- Short text without IAC ----------

  /**
    Exactly when the way short text without IAC is read matters: when some boundary parts CR
    from LF, and only then.
   */
  lemma CrLfCutExact(lim: Limits, chunks: seq<seq<u8>>)
    requires IAC !in Flatten(chunks) && |Flatten(chunks)| <= lim.maxLine && |Flatten(chunks)| <= lim.maxBuffer
    ensures Frames(lim, FRESH, chunks) == Frames(lim, FRESH, [Flatten(chunks)]) <==> NoCuts(chunks)
  {
    var s := Flatten(chunks);
    PlainAfterText(s, []);
    assert s + [] == s && [] + s == s;
    PlainStreamDecodes(lim, chunks);
    SingleReadExact(lim, s);
    PlainText(s);
    RestShape(s);
    TextBoundaries(lim, [], chunks);
  }

  /** On short text without IAC only the cuts are left of the conditions on the boundaries. */
  lemma {:induction false} TextBoundaries(lim: Limits, p: seq<u8>, chunks: seq<seq<u8>>)
    requires var s := p + Flatten(chunks); IAC !in s && |s| <= lim.maxLine && |s| <= lim.maxBuffer
    requires NoCutCrLf(p, Flatten(chunks))
    ensures BoundariesOk(lim, p, chunks) <==> NoCuts(chunks)
    decreases |chunks|
  {
    if chunks != [] {
      var c, more := chunks[0], Flatten(chunks[1..]);
      FlattenAfter(p, chunks);
      TextBoundary(p, c, more);
      if NoCutCrLf(c, more) {
        TextBoundaries(lim, p + c, chunks[1..]);
      }
    }
  }

  lemma TextBoundary(p: seq<u8>, c: seq<u8>, more: seq<u8>)
    requires IAC !in p + c + more && NoCutCrLf(p, c + more)
    ensures Held(p) <= |p| && Held(p + c) <= |p + c|
    ensures CutOk(p + c, more) <==> NoCutCrLf(c, more)
    ensures NoCutCrLf(c, more) ==> NoCutCrLf(p + c, more)
  {
    assert IAC !in p && IAC !in p + c && IAC !in more;
    HeldText(p);
    HeldText(p + c);
    TextCut(p + c, more);
    LaterCut(p, c, more);
  }

  lemma HeldText(p: seq<u8>)
    requires IAC !in p
    ensures Held(p) <= |p|
  {
    PlainText(p);
    RestShape(p);
  }

  lemma TextCut(p: seq<u8>, more: seq<u8>)
    requires IAC !in p && IAC !in more
    ensures CutOk(p, more) <==> NoCutCrLf(p, more)
  {
    PlainText(p);
    PlainText(more);
    assert [] + more == more;
  }

  lemma LaterCut(p: seq<u8>, c: seq<u8>, more: seq<u8>)
    requires NoCutCrLf(p, c + more)
    ensures NoCutCrLf(p + c, more) <==> NoCutCrLf(c, more)
  {
    EndOfAppend(p, c);
    StartOfAppend(c, more);
  }
}
