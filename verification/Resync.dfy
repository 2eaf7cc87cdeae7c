/** Recovery from overlong lines, and the bounds every run of the decoder keeps. */
module Resync {
  import opened Transducer
  import opened LineSplitter
  import opened Decoder

  /**
    A frame that answers a line: its exact bytes, or the too-long notice. The notice is only
    for lines over the limit; a line may exceed the limit by at most `slack` and still pass.
   */
  predicate Answers(lim: Limits, slack: nat, line: seq<u8>, frame: Decoded) {
    || (frame == Frame(Line(line)) && |line| <= lim.maxLine + slack)
    || (frame == Frame(LineTooLong) && |line| > lim.maxLine)
  }

  predicate AnswersEach(lim: Limits, slack: nat, lines: seq<seq<u8>>, frames: seq<Decoded>) {
    |frames| == |lines| && forall i :: 0 <= i < |lines| ==> Answers(lim, slack, lines[i], frames[i])
  }

  /** All lines of a split text: the terminated ones and, when nonempty, the rest. */
  function AllLines(sp: Lines): seq<seq<u8>> {
    sp.lines + (if sp.rest == [] then [] else [sp.rest])
  }

  lemma AnswersAppend(lim: Limits, slack: nat, l1: seq<seq<u8>>, f1: seq<Decoded>, l2: seq<seq<u8>>, f2: seq<Decoded>)
    requires AnswersEach(lim, slack, l1, f1) && AnswersEach(lim, slack, l2, f2)
    ensures AnswersEach(lim, slack, l1 + l2, f1 + f2)
  {
  }

  lemma EmptyPrefix<T>(s: seq<T>)
    ensures [] + s == s
  {
  }

  /** What a decoder that has seen the unterminated text `cur` holds, and the notice it gave for it. */
  function Midline(lim: Limits, cur: seq<u8>): DecoderState {
    if |cur| > lim.maxLine then DecoderState(NORMAL, true, []) else DecoderState(NORMAL, false, cur)
  }

  /**
    IAC-free reads of at most `slack + 1` bytes that keep CR LF together, each of which fits
    the buffer with what is held before it; `cur` is the unterminated text seen before them.
   */
  predicate TextReads(lim: Limits, slack: nat, cur: seq<u8>, chunks: seq<seq<u8>>)
    decreases |chunks|
  {
    |Midline(lim, cur).buf| <= lim.maxBuffer &&
    (chunks == [] ||
     var c := chunks[0];
     && IAC !in c && |c| <= slack + 1 && |Midline(lim, cur).buf| + |c| <= lim.maxBuffer
     && NoCutCrLf(c, Flatten(chunks[1..]))
     && TextReads(lim, slack, Split(cur + c).rest, chunks[1..]))
  }

  function Notice(lim: Limits, cur: seq<u8>): seq<Decoded> {
    if |cur| > lim.maxLine then [Frame(LineTooLong)] else []
  }

  lemma {:induction false} LineEndAfterText(cur: seq<u8>, c: seq<u8>)
    requires LineEnd(cur) == |cur|
    ensures LineEnd(cur + c) == |cur| + LineEnd(c)
    decreases |cur|
  {
    if cur == [] {
      assert cur + c == c;
    } else {
      assert (cur + c)[1..] == cur[1..] + c;
      LineEndAfterText(cur[1..], c);
    }
  }

  lemma SlicesAfterText(cur: seq<u8>, c: seq<u8>, e: nat, n: nat)
    requires e <= n <= |c|
    ensures (cur + c)[..|cur| + e] == cur + c[..e]
    ensures (cur + c)[|cur| + n..] == c[n..]
  {
  }

  lemma ConsumedAfterText(cur: seq<u8>, c: seq<u8>, e: nat)
    requires e < |c|
    ensures Consumed(cur + c, |cur| + e) == |cur| + Consumed(c, e)
  {
  }

  lemma RestAfterText(cur: seq<u8>, c: seq<u8>, e: nat)
    requires e < |c|
    ensures (cur + c)[Consumed(cur + c, |cur| + e)..] == c[Consumed(c, e)..]
    ensures (cur + c)[..|cur| + e] == cur + c[..e]
  {
    ConsumedAfterText(cur, c, e);
    SlicesAfterText(cur, c, e, Consumed(c, e));
  }

  /** Text in front of the first terminator only lengthens the first line. */
  lemma SplitAfterText(cur: seq<u8>, c: seq<u8>)
    requires LineEnd(cur) == |cur|
    ensures var p := Split(c);
            Split(cur + c) == if p.lines == [] then Lines([], cur + c)
                              else Lines([cur + p.lines[0]] + p.lines[1..], p.rest)
  {
    LineEndAfterText(cur, c);
    if LineEnd(c) < |c| {
      FirstLineAfterText(cur, c);
      SplitStep(c);
      SplitStep(cur + c);
      HeadAndTail(c[..LineEnd(c)], Split(AfterFirstLine(c)).lines);
    }
  }

  lemma FirstLineAfterText(cur: seq<u8>, c: seq<u8>)
    requires LineEnd(cur + c) == |cur| + LineEnd(c) && LineEnd(c) < |c|
    ensures AfterFirstLine(cur + c) == AfterFirstLine(c)
    ensures (cur + c)[..LineEnd(cur + c)] == cur + c[..LineEnd(c)]
  {
    RestAfterText(cur, c, LineEnd(c));
    AfterIs(c, LineEnd(c));
    AfterIs(cur + c, |cur| + LineEnd(c));
  }

  lemma AfterIs(s: seq<u8>, e: nat)
    requires LineEnd(s) == e < |s|
    ensures AfterFirstLine(s) == s[Consumed(s, e)..]
  {
  }

  /** A terminated line is shorter than the text it was cut from. */
  lemma {:induction false} LinesAreShorter(s: seq<u8>)
    ensures forall l :: l in Split(s).lines ==> |l| < |s|
    decreases |s|
  {
    var e := LineEnd(s);
    if e < |s| {
      var t := AfterFirstLine(s);
      LinesAreShorter(t);
      assert Split(s).lines == [s[..e]] + Split(t).lines;
    }
  }

  /** The answers to the lines one read completes, given the unterminated text `cur` before it. */
  function Completed(lim: Limits, cur: seq<u8>, lines: seq<seq<u8>>): seq<Decoded> {
    if |cur| > lim.maxLine && lines != [] then [Frame(LineTooLong)] + LineFrames(lines[1..])
    else LineFrames(lines)
  }

  /** Frames of one read into a decoder that is not discarding. */
  lemma ReadShort(lim: Limits, cur: seq<u8>, c: seq<u8>)
    requires IAC !in cur && IAC !in c && |cur + c| <= lim.maxBuffer
    requires |cur| <= lim.maxLine
    ensures var sp := Split(cur + c);
            Drain(lim, DecoderState(NORMAL, false, cur + c)) ==
            Drained(LineFrames(sp.lines) + Notice(lim, sp.rest), Midline(lim, sp.rest), false)
  {
    var st := DecoderState(NORMAL, false, cur + c);
    PlainText(st.buf);
    DrainIsSplit(lim, st);
    var rest := Split(st.buf).rest;
    assert rest + [] == rest;
  }

  /** Frames of one read into a discarding decoder: the line under way yields nothing more. */
  lemma ReadLong(lim: Limits, cur: seq<u8>, c: seq<u8>)
    requires LineEnd(cur) == |cur| && IAC !in c && |c| <= lim.maxBuffer
    requires |cur| > lim.maxLine
    ensures var sp := Split(cur + c);
            Drain(lim, DecoderState(NORMAL, true, c)) ==
            Drained(if sp.lines == [] then [] else LineFrames(sp.lines[1..]) + Notice(lim, sp.rest),
                    Midline(lim, sp.rest), false)
  {
    DiscardingRead(lim, c);
    SplitAfterText(cur, c);
    var p := Split(c);
    if p.lines != [] {
      HeadAndTail(cur + p.lines[0], p.lines[1..]);
    }
  }

  lemma DiscardingRead(lim: Limits, c: seq<u8>)
    requires IAC !in c && |c| <= lim.maxBuffer
    ensures var p := Split(c);
            Drain(lim, DecoderState(NORMAL, true, c)) ==
            if p.lines == [] then Drained([], DecoderState(NORMAL, true, []), false)
            else Drained(LineFrames(p.lines[1..]) + Notice(lim, p.rest), Midline(lim, p.rest), false)
  {
    var rest := Split(c).rest;
    PlainText(c);
    DrainIsSplit(lim, DecoderState(NORMAL, true, c));
    EmptySuffix(rest);
    EmptySuffix(LineFrames([]));
  }

  lemma HeadAndTail<T>(x: T, xs: seq<T>)
    ensures ([x] + xs)[0] == x && ([x] + xs)[1..] == xs
  {
  }

  lemma CompletedAnswers(lim: Limits, slack: nat, cur: seq<u8>, lines: seq<seq<u8>>)
    requires forall i :: 1 <= i < |lines| ==> |lines[i]| <= slack
    requires lines != [] ==> |cur| <= |lines[0]| <= |cur| + slack
    ensures AnswersEach(lim, slack, lines, Completed(lim, cur, lines))
  {
    var frames := Completed(lim, cur, lines);
    if |cur| > lim.maxLine && lines != [] {
      HeadAndTail(Frame(LineTooLong), LineFrames(lines[1..]));
    }
    forall i | 0 <= i < |lines|
      ensures Answers(lim, slack, lines[i], frames[i])
    {
      assert i > 0 ==> frames[i] == Frame(Line(lines[i]));
    }
  }

  lemma LongerFirstLine(cur: seq<u8>, p: seq<seq<u8>>, slack: nat)
    requires forall l :: l in p ==> |l| <= slack
    ensures p != [] ==> |cur| <= |cur + p[0]| <= |cur| + slack
    ensures forall i :: 1 <= i < |p| ==> |p[i]| <= slack
  {
  }

  lemma CompletedLengths(cur: seq<u8>, c: seq<u8>, slack: nat)
    requires LineEnd(cur) == |cur| && |c| <= slack + 1
    ensures var lines := Split(cur + c).lines;
            && (forall i :: 1 <= i < |lines| ==> |lines[i]| <= slack)
            && (lines != [] ==> |cur| <= |lines[0]| <= |cur| + slack)
  {
    SplitAfterText(cur, c);
    LinesAreShorter(c);
    LongerFirstLine(cur, Split(c).lines, slack);
  }

  /** The notice given before plus the frames of a read are the completed answers plus the notice after. */
  lemma CompletedSum(lim: Limits, cur: seq<u8>, lines: seq<seq<u8>>, rest: seq<u8>, frames: seq<Decoded>)
    requires |cur| <= lim.maxLine ==> frames == LineFrames(lines) + Notice(lim, rest)
    requires |cur| > lim.maxLine && lines == [] ==> frames == [] && |rest| >= |cur|
    requires |cur| > lim.maxLine && lines != [] ==> frames == LineFrames(lines[1..]) + Notice(lim, rest)
    ensures Notice(lim, cur) + frames == Completed(lim, cur, lines) + Notice(lim, rest)
  {
    if |cur| <= lim.maxLine {
      assert [] + frames == frames;
    } else if lines == [] {
      assert LineFrames(lines) == [];
    } else {
      Assoc([Frame(LineTooLong)], LineFrames(lines[1..]), Notice(lim, rest));
    }
  }

  /** Draining one read, with the notice already given, answers the lines it completes. */
  lemma OneTextRead(lim: Limits, cur: seq<u8>, c: seq<u8>)
    requires LineEnd(cur) == |cur| && IAC !in cur && IAC !in c
    requires |Midline(lim, cur).buf| + |c| <= lim.maxBuffer
    ensures var sp := Split(cur + c);
            var d := Drain(lim, Feed(Midline(lim, cur), c));
            && !d.overflow
            && d.state == Midline(lim, sp.rest)
            && Notice(lim, cur) + d.frames == Completed(lim, cur, sp.lines) + Notice(lim, sp.rest)
  {
    var sp := Split(cur + c);
    if |cur| <= lim.maxLine {
      ReadShort(lim, cur, c);
    } else {
      assert [] + c == c;
      ReadLong(lim, cur, c);
      SplitAfterText(cur, c);
    }
    CompletedSum(lim, cur, sp.lines, sp.rest, Drain(lim, Feed(Midline(lim, cur), c)).frames);
  }

  lemma Assoc<T>(a: seq<T>, b: seq<T>, c: seq<T>)
    ensures (a + b) + c == a + (b + c)
  {
  }

  /** Nothing more comes from a decoder in mid-line until the next read. */
  lemma MidlineDecode(lim: Limits, cur: seq<u8>)
    requires LineEnd(cur) == |cur| && IAC !in cur && |Midline(lim, cur).buf| <= lim.maxBuffer
    ensures Decode(lim, Midline(lim, cur)) == (Midline(lim, cur), NoFrame)
  {
    PlainText(Midline(lim, cur).buf);
    assert cur + [] == cur;
  }

  lemma MidlineEof(lim: Limits, slack: nat, cur: seq<u8>)
    requires LineEnd(cur) == |cur| && IAC !in cur && |Midline(lim, cur).buf| <= lim.maxBuffer
    ensures AnswersEach(lim, slack, if cur == [] then [] else [cur],
                        Notice(lim, cur) + EofFrames(lim, Midline(lim, cur)))
  {
    MidlineDecode(lim, cur);
    var st := Midline(lim, cur);
    var empty := DecoderState(NORMAL, false, []);
    assert EofFrames(lim, empty) == [];
    if |cur| <= lim.maxLine && cur != [] {
      assert TrimmedEnd(cur) == |cur|;
      assert cur[..|cur|] == cur;
      assert EofFrames(lim, st) == [Frame(Line(cur))];
    }
  }

  /**
    Resynchronisation: on IAC-free input, however it is read, every line is answered by exactly
    one frame, in order. With `cur` the unterminated text seen so far, the frames still to come
    (after the notice already given for `cur`) answer the lines of everything from `cur` on.
   */
  lemma {:induction false} EveryLineIsAnswered(lim: Limits, slack: nat, cur: seq<u8>, chunks: seq<seq<u8>>)
    requires LineEnd(cur) == |cur| && IAC !in cur && TextReads(lim, slack, cur, chunks)
    ensures AnswersEach(lim, slack, AllLines(Split(cur + Flatten(chunks))),
                        Notice(lim, cur) + Frames(lim, Midline(lim, cur), chunks))
    decreases |chunks|
  {
    if chunks == [] {
      AnswerEnd(lim, slack, cur);
    } else {
      var rest := Split(cur + chunks[0]).rest;
      RestIsText(cur + chunks[0]);
      EveryLineIsAnswered(lim, slack, rest, chunks[1..]);
      AnswerStep(lim, slack, cur, chunks[0], chunks[1..]);
      assert [chunks[0]] + chunks[1..] == chunks;
    }
  }

  lemma AnswerEnd(lim: Limits, slack: nat, cur: seq<u8>)
    requires LineEnd(cur) == |cur| && IAC !in cur && |Midline(lim, cur).buf| <= lim.maxBuffer
    ensures AnswersEach(lim, slack, AllLines(Split(cur + Flatten([]))), Notice(lim, cur) + Frames(lim, Midline(lim, cur), []))
  {
    MidlineFrames(lim, cur, []);
    MidlineEof(lim, slack, cur);
    EmptySuffix(cur);
    assert AllLines(Lines([], cur)) == if cur == [] then [] else [cur];
  }

  lemma EmptySuffix<T>(s: seq<T>)
    ensures s + [] == s
  {
  }

  lemma AnswerStep(lim: Limits, slack: nat, cur: seq<u8>, c: seq<u8>, chunks: seq<seq<u8>>)
    requires LineEnd(cur) == |cur| && IAC !in cur && IAC !in c
    requires |c| <= slack + 1 && |Midline(lim, cur).buf| + |c| <= lim.maxBuffer && NoCutCrLf(c, Flatten(chunks))
    requires var rest := Split(cur + c).rest;
             AnswersEach(lim, slack, AllLines(Split(rest + Flatten(chunks))),
                         Notice(lim, rest) + Frames(lim, Midline(lim, rest), chunks))
    ensures AnswersEach(lim, slack, AllLines(Split(cur + Flatten([c] + chunks))),
                        Notice(lim, cur) + Frames(lim, Midline(lim, cur), [c] + chunks))
  {
    var sp := Split(cur + c);
    var next := Notice(lim, sp.rest) + Frames(lim, Midline(lim, sp.rest), chunks);
    CompletedLengths(cur, c, slack);
    CompletedAnswers(lim, slack, cur, sp.lines);
    AnswersAppend(lim, slack, sp.lines, Completed(lim, cur, sp.lines), AllLines(Split(sp.rest + Flatten(chunks))), next);
    ResumeLines(cur, c, chunks);
    ResumeFrames(lim, cur, c, chunks);
  }

  lemma RestIsText(s: seq<u8>)
    requires IAC !in s
    ensures var r := Split(s).rest; LineEnd(r) == |r| && IAC !in r
  {
    RestShape(s);
  }

  lemma ResumeLines(cur: seq<u8>, c: seq<u8>, chunks: seq<seq<u8>>)
    requires LineEnd(cur) == |cur| && NoCutCrLf(c, Flatten(chunks))
    ensures var sp := Split(cur + c);
            AllLines(Split(cur + Flatten([c] + chunks))) == sp.lines + AllLines(Split(sp.rest + Flatten(chunks)))
  {
    TextBeforeCut(cur, c, Flatten(chunks));
    SplitAppend(cur + c, Flatten(chunks));
    var sp := Split(cur + c);
    Assoc(sp.lines, Split(sp.rest + Flatten(chunks)).lines, AllLines(Lines([], Split(sp.rest + Flatten(chunks)).rest)));
    FlattenCons(cur, c, chunks);
  }

  lemma FlattenCons(p: seq<u8>, c: seq<u8>, chunks: seq<seq<u8>>)
    ensures p + Flatten([c] + chunks) == p + c + Flatten(chunks)
  {
    assert ([c] + chunks)[1..] == chunks;
  }

  /** What is held after a read comes from what was held before it and the read. */
  lemma HeldAfterRead(lim: Limits, cur: seq<u8>, c: seq<u8>)
    requires LineEnd(cur) == |cur|
    ensures |Midline(lim, Split(cur + c).rest).buf| <= |Midline(lim, cur).buf| + |c|
  {
    RestShape(cur + c);
    RestShape(c);
    SplitAfterText(cur, c);
  }

  lemma ResumeFrames(lim: Limits, cur: seq<u8>, c: seq<u8>, chunks: seq<seq<u8>>)
    requires LineEnd(cur) == |cur| && IAC !in cur && IAC !in c
    requires |Midline(lim, cur).buf| + |c| <= lim.maxBuffer
    ensures var sp := Split(cur + c);
            Notice(lim, cur) + Frames(lim, Midline(lim, cur), [c] + chunks) ==
            Completed(lim, cur, sp.lines) + (Notice(lim, sp.rest) + Frames(lim, Midline(lim, sp.rest), chunks))
  {
    var sp := Split(cur + c);
    var rest := sp.rest;
    var st := Feed(Midline(lim, cur), c);
    var d := Drain(lim, st);
    RestIsText(cur + c);
    HeldAfterRead(lim, cur, c);
    MidlineFrames(lim, cur, [c] + chunks);
    MidlineFrames(lim, rest, chunks);
    assert ([c] + chunks)[1..] == chunks;
    OneTextRead(lim, cur, c);
    FramesByDrain(lim, st, chunks);
    var next := Frames(lim, Midline(lim, rest), chunks);
    Assoc(Notice(lim, cur), d.frames, next);
    Assoc(Completed(lim, cur, sp.lines), Notice(lim, rest), next);
  }

  lemma MidlineFrames(lim: Limits, cur: seq<u8>, chunks: seq<seq<u8>>)
    requires LineEnd(cur) == |cur| && IAC !in cur && |Midline(lim, cur).buf| <= lim.maxBuffer
    ensures var st := Midline(lim, cur);
            Frames(lim, st, chunks) ==
            if chunks == [] then EofFrames(lim, st) else Frames(lim, Feed(st, chunks[0]), chunks[1..])
  {
    MidlineDecode(lim, cur);
  }

  /** From a fresh decoder: one frame per line, in order, and no short line is ever rejected. */
  lemma LinesResynchronise(lim: Limits, slack: nat, chunks: seq<seq<u8>>)
    requires TextReads(lim, slack, [], chunks)
    ensures AnswersEach(lim, slack, AllLines(Split(Flatten(chunks))), Frames(lim, FRESH, chunks))
  {
    EveryLineIsAnswered(lim, slack, [], chunks);
    EmptyPrefix(Flatten(chunks));
    EmptyPrefix(Frames(lim, FRESH, chunks));
  }

  /** Read byte by byte, exactly the lines over the limit are rejected. */
  lemma ByteReadsRejectExactlyLongLines(lim: Limits, chunks: seq<seq<u8>>)
    requires TextReads(lim, 0, [], chunks)
    ensures var lines := AllLines(Split(Flatten(chunks)));
            var frames := Frames(lim, FRESH, chunks);
            && |frames| == |lines|
            && forall i :: 0 <= i < |lines| ==>
                 frames[i] == if |lines[i]| > lim.maxLine then Frame(LineTooLong) else Frame(Line(lines[i]))
  {
    LinesResynchronise(lim, 0, chunks);
    var lines := AllLines(Split(Flatten(chunks)));
    var frames := Frames(lim, FRESH, chunks);
    forall i | 0 <= i < |lines|
      ensures frames[i] == if |lines[i]| > lim.maxLine then Frame(LineTooLong) else Frame(Line(lines[i]))
    {
      assert Answers(lim, 0, lines[i], frames[i]);
    }
  }

  // ---------- Bounds of every run, on any input ----------

  lemma {:induction false} EofNeverOverflows(lim: Limits, st: DecoderState)
    requires |st.buf| <= lim.maxBuffer
    ensures Overflow !in EofFrames(lim, st)
    decreases |st.buf|
  {
    var (s, d) := DecodeEof(lim, st);
    if d.Frame? {
      EofNeverOverflows(lim, s);
    }
  }

  /** An overflow takes one read of more than the buffer cap less the line limit. */
  lemma {:induction false} OverflowNeedsOneBigRead(lim: Limits, st: DecoderState, chunks: seq<seq<u8>>)
    requires |st.buf| <= lim.maxBuffer
    requires Overflow in Frames(lim, st, chunks)
    ensures exists c :: c in chunks && |c| > lim.maxBuffer - lim.maxLine
    decreases |chunks|, |st.buf|
  {
    var (s, d) := Decode(lim, st);
    if d.Frame? {
      OverflowNeedsOneBigRead(lim, s, chunks);
    } else if chunks == [] {
      EofNeverOverflows(lim, s);
    } else if |chunks[0]| <= lim.maxBuffer - lim.maxLine {
      OverflowNeedsOneBigRead(lim, Feed(s, chunks[0]), chunks[1..]);
    }
  }

  /** An overflow is the last thing a stream yields. */
  lemma {:induction false} OverflowIsLast(lim: Limits, st: DecoderState, chunks: seq<seq<u8>>, i: nat)
    requires i < |Frames(lim, st, chunks)| && Frames(lim, st, chunks)[i] == Overflow
    ensures i == |Frames(lim, st, chunks)| - 1
    decreases |chunks|, |st.buf|
  {
    var (s, d) := Decode(lim, st);
    if d.Frame? {
      OverflowIsLast(lim, s, chunks, i - 1);
    } else if d.NoFrame? && chunks == [] {
      EofNeverOverflows(lim, s);
    } else if d.NoFrame? {
      OverflowIsLast(lim, Feed(s, chunks[0]), chunks[1..], i);
    }
  }

  /** How one run of the body of `decode` ends: with a result, or in the self-call. */
  datatype BodyEnd = Done(state: DecoderState, decoded: Decoded) | Again(state: DecoderState)

  /** One run of the body, up to its self-call. */
  function Body(lim: Limits, st: DecoderState): BodyEnd {
    if |st.buf| > lim.maxBuffer then Done(st, Overflow)
    else
      var s := Strip(st.flags, st.buf);
      var buf := s.out + s.tail;
      var e := LineEnd(buf);
      if e < |buf| then
        var after := DecoderState(s.flags, false, buf[Consumed(buf, e)..]);
        if st.discarding then Again(after) else Done(after, Frame(Line(buf[..e])))
      else if st.discarding then Done(DecoderState(s.flags, true, []), NoFrame)
      else if |buf| > lim.maxLine then Done(DecoderState(s.flags, true, []), Frame(LineTooLong))
      else Done(DecoderState(s.flags, false, buf), NoFrame)
  }

  /**
    `decode` is its body run once, or twice: the second time only at the end of an overlong
    line being discarded, on a shorter buffer, and never a third time.
   */
  lemma SelfCallsOnce(lim: Limits, st: DecoderState)
    ensures var b := Body(lim, st);
            && (b.Done? ==> Decode(lim, st) == (b.state, b.decoded))
            && (b.Again? ==>
                  var again := Body(lim, b.state);
                  && st.discarding && !b.state.discarding && |b.state.buf| < |st.buf|
                  && again.Done? && Decode(lim, st) == (again.state, again.decoded))
  {
    StripShrinks(st.flags, st.buf);
  }
}
