/** Whether the way a byte stream is cut into reads can change the lines decoded from it. */
module Chunking {
  import opened Transducer
  import opened LineSplitter
  import opened Decoder

  /** What a stream should decode to: strip it all at once, then split it. */
  function StreamFrames(f: Flags, s: seq<u8>): seq<Decoded> {
    AllFrames(Split(Strip(f, s).out))
  }

  function AllFrames(sp: Lines): (r: seq<Decoded>)
    ensures |r| == LineCount(sp)
  {
    LineFrames(sp.lines) + LastLine(sp.rest)
  }

  lemma AllFramesAppend(lines: seq<seq<u8>>, q: Lines)
    ensures AllFrames(Lines(lines + q.lines, q.rest)) == LineFrames(lines) + AllFrames(q)
  {
  }

  function LastLine(rest: seq<u8>): seq<Decoded> {
    if rest == [] then [] else [Frame(Line(rest))]
  }

  /**
    Every read, appended to what the decoder still holds, fits the buffer, is safe to strip
    once per call, ends in a short enough unterminated line, and does not part CR from LF.
   */
  predicate ReadsOk(lim: Limits, f: Flags, text: seq<u8>, tail: seq<u8>, chunks: seq<seq<u8>>)
    decreases |chunks|
  {
    chunks == [] ||
    var buf := text + tail + chunks[0];
    var r := Strip(f, buf);
    var rest := Split(r.out).rest;
    && |buf| <= lim.maxBuffer
    && Safe(f, buf)
    && |rest| + |r.tail| <= lim.maxLine
    && NoCutCrLf(r.out, Strip(r.flags, r.tail + Flatten(chunks[1..])).out)
    && ReadsOk(lim, r.flags, rest, r.tail, chunks[1..])
  }

  /** A decoder at rest between two reads. */
  predicate AtRest(lim: Limits, f: Flags, text: seq<u8>, tail: seq<u8>) {
    && Settled(f, text, tail)
    && LineEnd(text) == |text|
    && |text| + |tail| <= lim.maxLine
    && |text| + |tail| <= lim.maxBuffer
  }

  function Resting(f: Flags, text: seq<u8>, tail: seq<u8>): DecoderState {
    DecoderState(f, false, text + tail)
  }

  /** At rest, a call yields nothing and changes nothing. */
  lemma RestingDecode(lim: Limits, f: Flags, text: seq<u8>, tail: seq<u8>)
    requires AtRest(lim, f, text, tail)
    ensures Decode(lim, Resting(f, text, tail)) == (Resting(f, text, tail), NoFrame)
  {
    SettledStrip(f, text, tail);
    LineEndExtend(text, tail);
  }

  /** At end of input a decoder at rest emits its unterminated line, without the cut-off command. */
  lemma RestingEof(lim: Limits, f: Flags, text: seq<u8>, tail: seq<u8>)
    requires AtRest(lim, f, text, tail)
    ensures EofFrames(lim, Resting(f, text, tail)) == LastLine(text)
  {
    RestingDecode(lim, f, text, tail);
    if text != [] {
      var buf := text + tail;
      assert buf[0] == text[0];
      assert TrimmedEnd(buf) == |text| by {
        if tail == [] {
          assert forall i :: 0 <= i < |buf| ==> buf[i] == text[i];
        }
      }
      assert buf[..|text|] == text;
      EmptyEof(lim, f);
    } else {
      assert text + tail == tail;
    }
  }

  lemma EmptyEof(lim: Limits, f: Flags)
    ensures EofFrames(lim, DecoderState(f, false, [])) == []
  {
  }

  /** The rest and the tail left by a safe read leave the decoder at rest again. */
  lemma SafeLeavesRest(lim: Limits, f: Flags, buf: seq<u8>)
    requires Safe(f, buf) && |buf| <= lim.maxBuffer
    requires var r := Strip(f, buf); |Split(r.out).rest| + |r.tail| <= lim.maxLine
    ensures var r := Strip(f, buf); AtRest(lim, r.flags, Split(r.out).rest, r.tail)
  {
    var r := Strip(f, buf);
    TailShape(f, buf);
    RestShape(r.out);
    StripShrinks(f, buf);
    RestIsKept(r.out);
  }

  /** The rest is what is left of the text after its first line. */
  lemma RestIsKept(text: seq<u8>)
    ensures var kept, rest := AfterFirstLine(text), Split(text).rest;
            (IAC !in kept ==> IAC !in rest) && (kept == [] ==> rest == [])
  {
    RestShape(AfterFirstLine(text));
  }

  lemma NoIacKept(text: seq<u8>)
    requires IAC !in text
    ensures IAC !in AfterFirstLine(text) && IAC !in Split(text).rest
  {
    RestIsKept(text);
  }

  /** A safe read that fits, and leaves no more than a line, followed by draining the decoder. */
  lemma OneRead(lim: Limits, f: Flags, text: seq<u8>, tail: seq<u8>, chunks: seq<seq<u8>>)
    requires AtRest(lim, f, text, tail) && chunks != []
    requires var buf := text + tail + chunks[0];
             var r := Strip(f, buf);
             Safe(f, buf) && |buf| <= lim.maxBuffer && |Split(r.out).rest| + |r.tail| <= lim.maxLine
    ensures var r := Strip(f, text + tail + chunks[0]);
            var sp := Split(r.out);
            && AtRest(lim, r.flags, sp.rest, r.tail)
            && Frames(lim, Resting(f, text, tail), chunks) ==
               LineFrames(sp.lines) + Frames(lim, Resting(r.flags, sp.rest, r.tail), chunks[1..])
  {
    var st := Feed(Resting(f, text, tail), chunks[0]);
    var r := Strip(st.flags, st.buf);
    var sp := Split(r.out);
    RestingDecode(lim, f, text, tail);
    SafeLeavesRest(lim, f, st.buf);
    RestingDecode(lim, r.flags, sp.rest, r.tail);
    DrainIsSplit(lim, st);
    FramesByDrain(lim, st, chunks[1..]);
    assert LineFrames(sp.lines) + TooLongNotice(lim, false, sp.rest, r.tail) == LineFrames(sp.lines);
  }

  /** Something other than lines came out. */
  predicate Spoilt(frames: seq<Decoded>) {
    Overflow in frames || Frame(LineTooLong) in frames
  }

  lemma StreamsAreNotSpoilt(f: Flags, s: seq<u8>)
    ensures !Spoilt(StreamFrames(f, s))
  {
  }

  /** A safe read that does not fit, or leaves more than a line, shows at once. */
  lemma SpoiltRead(lim: Limits, f: Flags, text: seq<u8>, tail: seq<u8>, chunks: seq<seq<u8>>)
    requires AtRest(lim, f, text, tail) && chunks != []
    requires var buf := text + tail + chunks[0];
             var r := Strip(f, buf);
             Safe(f, buf) && (|buf| > lim.maxBuffer || |Split(r.out).rest| + |r.tail| > lim.maxLine)
    ensures Spoilt(Frames(lim, Resting(f, text, tail), chunks))
  {
    var st := Feed(Resting(f, text, tail), chunks[0]);
    RestingDecode(lim, f, text, tail);
    if |st.buf| <= lim.maxBuffer {
      var r := Strip(f, st.buf);
      var sp := Split(r.out);
      DrainIsSplit(lim, st);
      FramesByDrain(lim, st, chunks[1..]);
      assert (LineFrames(sp.lines) + [Frame(LineTooLong)])[|sp.lines|] == Frame(LineTooLong);
    }
  }

  lemma EndOfStream(lim: Limits, f: Flags, text: seq<u8>, tail: seq<u8>)
    requires AtRest(lim, f, text, tail)
    ensures Frames(lim, Resting(f, text, tail), []) == StreamFrames(f, text + tail)
  {
    RestingDecode(lim, f, text, tail);
    RestingEof(lim, f, text, tail);
    SettledStrip(f, text, tail);
    assert AllFrames(Lines([], text)) == LastLine(text);
  }

  /** The first read of a stream, seen from the one-pass specification. */
  lemma StreamStep(f: Flags, buf: seq<u8>, more: seq<u8>)
    requires Safe(f, buf)
    requires var r := Strip(f, buf); NoCutCrLf(r.out, Strip(r.flags, r.tail + more).out)
    ensures var r := Strip(f, buf);
            var sp := Split(r.out);
            StreamFrames(f, buf + more) == LineFrames(sp.lines) + StreamFrames(r.flags, sp.rest + r.tail + more)
  {
    var r := Strip(f, buf);
    var sp := Split(r.out);
    var next := Strip(r.flags, r.tail + more);
    StripAppend(f, buf, more);
    SplitAppend(r.out, next.out);
    RestRestrips(f, buf, more);
    AllFramesAppend(sp.lines, Split(sp.rest + next.out));
  }

  /** The same where the first read ends between CR and LF: the stream has one line less. */
  lemma CutStreamStep(f: Flags, buf: seq<u8>, more: seq<u8>)
    requires Safe(f, buf)
    requires var r := Strip(f, buf); !NoCutCrLf(r.out, Strip(r.flags, r.tail + more).out)
    ensures var r := Strip(f, buf);
            var sp := Split(r.out);
            |StreamFrames(f, buf + more)| + 1 == |sp.lines| + |StreamFrames(r.flags, sp.rest + r.tail + more)|
  {
    var r := Strip(f, buf);
    StripAppend(f, buf, more);
    CutCrLfSplit(r.out, Strip(r.flags, r.tail + more).out);
    RestRestrips(f, buf, more);
  }

  lemma RestRestrips(f: Flags, buf: seq<u8>, more: seq<u8>)
    requires Safe(f, buf)
    ensures var r := Strip(f, buf);
            var rest := Split(r.out).rest;
            Strip(r.flags, rest + r.tail + more) == Prepend(rest, Strip(r.flags, r.tail + more))
  {
    var r := Strip(f, buf);
    var rest := Split(r.out).rest;
    SafeLeavesRest(Limits(|rest| + |r.tail|, |buf|), f, buf);
    RestripExact(rest, r.tail, r.flags);
    assert RestripHarmless(rest, r.tail, r.flags);
    assert Strip(r.flags, r.tail + more) == Strip(r.flags, r.tail + more);
  }

  /**
    Chunking independence: while the reads are fine, the decoder yields exactly the lines of
    the whole stream stripped in one pass and then split, the unterminated last line included.
   */
  lemma {:induction false} DecodesTheStream(lim: Limits, f: Flags, text: seq<u8>, tail: seq<u8>, chunks: seq<seq<u8>>)
    requires AtRest(lim, f, text, tail) && ReadsOk(lim, f, text, tail, chunks)
    ensures Frames(lim, Resting(f, text, tail), chunks) == StreamFrames(f, text + tail + Flatten(chunks))
    decreases |chunks|
  {
    if chunks == [] {
      EndOfStream(lim, f, text, tail);
      assert text + tail + [] == text + tail;
    } else {
      var r := Strip(f, text + tail + chunks[0]);
      var sp := Split(r.out);
      OneRead(lim, f, text, tail, chunks);
      StreamRead(lim, f, text, tail, chunks);
      DecodesTheStream(lim, r.flags, sp.rest, r.tail, chunks[1..]);
    }
  }

  lemma StreamRead(lim: Limits, f: Flags, text: seq<u8>, tail: seq<u8>, chunks: seq<seq<u8>>)
    requires chunks != [] && ReadsOk(lim, f, text, tail, chunks)
    ensures var r := Strip(f, text + tail + chunks[0]);
            var sp := Split(r.out);
            StreamFrames(f, text + tail + Flatten(chunks)) ==
            LineFrames(sp.lines) + StreamFrames(r.flags, sp.rest + r.tail + Flatten(chunks[1..]))
  {
    FlattenAfter(text + tail, chunks);
    StreamStep(f, text + tail + chunks[0], Flatten(chunks[1..]));
  }

  lemma FlattenAfter(p: seq<u8>, chunks: seq<seq<u8>>)
    requires chunks != []
    ensures p + Flatten(chunks) == p + chunks[0] + Flatten(chunks[1..])
  {
  }

  // ---------- Streams without escaped IAC and without subnegotiation ----------

  /** The telnet parse of `s` meets neither IAC IAC nor IAC SB. */
  predicate Plain(s: seq<u8>)
    decreases |s|
  {
    if s == [] then true
    else if s[0] != IAC then Plain(s[1..])
    else if |s| == 1 then true
    else if s[1] == IAC || s[1] == SB then false
    else if IsNegotiation(s[1]) then |s| == 2 || Plain(s[3..])
    else Plain(s[2..])
  }

  lemma {:induction false} PlainStrip(s: seq<u8>)
    requires Plain(s)
    ensures IAC !in Strip(NORMAL, s).out && Strip(NORMAL, s).flags == NORMAL
    decreases |s|
  {
    if s != [] {
      if s[0] != IAC {
        PlainStrip(s[1..]);
      } else if |s| >= 2 {
        if !IsNegotiation(s[1]) {
          PlainStrip(s[2..]);
        } else if |s| > 2 {
          PlainStrip(s[3..]);
        }
      }
    }
  }

  /** Which streams are plain, by byte value: no 255 255 and no 255 250 where a command may start. */
  lemma PlainTable(c: u8, x: u8, b: seq<u8>)
    ensures Plain([]) && Plain([255])
    ensures c != 255 ==> (Plain([c] + b) <==> Plain(b))
    ensures 251 <= c <= 254 ==> Plain([255, c]) && (Plain([255, c, x] + b) <==> Plain(b))
    ensures c < 250 ==> (Plain([255, c] + b) <==> Plain(b))
    ensures !Plain([255, 255] + b) && !Plain([255, 250] + b)
  {
    assert ([c] + b)[1..] == b;
    assert ([255, c, x] + b)[3..] == b;
    assert ([255, c] + b)[2..] == b;
  }

  lemma {:induction false} PlainPrefix(a: seq<u8>, b: seq<u8>)
    requires Plain(a + b)
    ensures Plain(a)
    decreases |a|
  {
    if a != [] {
      var s := a + b;
      if a[0] != IAC {
        assert s[1..] == a[1..] + b;
        PlainPrefix(a[1..], b);
      } else if |a| >= 2 {
        if !IsNegotiation(a[1]) {
          assert s[2..] == a[2..] + b;
          PlainPrefix(a[2..], b);
        } else if |a| > 2 {
          assert s[3..] == a[3..] + b;
          PlainPrefix(a[3..], b);
        }
      }
    }
  }

  /** Stripping a piece of a plain stream leaves the stream plain. */
  lemma {:induction false} PlainAfterStrip(a: seq<u8>, b: seq<u8>)
    requires Plain(a + b)
    ensures Plain(Strip(NORMAL, a).tail + b)
    decreases |a|
  {
    var s := a + b;
    if a == [] {
      assert s == b;
    } else if a[0] != IAC {
      assert s[1..] == a[1..] + b;
      PlainAfterStrip(a[1..], b);
    } else if |a| >= 2 {
      if !IsNegotiation(a[1]) {
        assert s[2..] == a[2..] + b;
        PlainAfterStrip(a[2..], b);
      } else if |a| > 2 {
        assert s[3..] == a[3..] + b;
        PlainAfterStrip(a[3..], b);
      }
    }
  }

  lemma {:induction false} PlainAfterText(text: seq<u8>, s: seq<u8>)
    requires IAC !in text && Plain(s)
    ensures Plain(text + s)
    decreases |text|
  {
    if text == [] {
      assert text + s == s;
    } else {
      assert (text + s)[1..] == text[1..] + s;
      PlainAfterText(text[1..], s);
    }
  }

  lemma Regrouped(a: seq<u8>, b: seq<u8>, c: seq<u8>)
    ensures a + b + c == a + (b + c)
  {
  }

  /** One read of a plain stream is safe and leaves a plain stream. */
  lemma PlainStep(buf: seq<u8>, more: seq<u8>)
    requires Plain(buf + more)
    ensures var r := Strip(NORMAL, buf);
            Safe(NORMAL, buf) && r.flags == NORMAL && Plain(Split(r.out).rest + r.tail + more)
  {
    var r := Strip(NORMAL, buf);
    PlainPrefix(buf, more);
    PlainStrip(buf);
    PlainAfterStrip(buf, more);
    NoIacKept(r.out);
    PlainAfterText(Split(r.out).rest, r.tail + more);
    Regrouped(Split(r.out).rest, r.tail, more);
  }

  /**
    On a plain stream every unfit read shows: in an overflow, in a rejected line, or in a line
    too many, which no later read takes back.
   */
  lemma {:induction false} UnfitReadsShow(lim: Limits, text: seq<u8>, tail: seq<u8>, chunks: seq<seq<u8>>)
    requires AtRest(lim, NORMAL, text, tail) && Plain(text + tail + Flatten(chunks))
    requires !ReadsOk(lim, NORMAL, text, tail, chunks)
    ensures var frames := Frames(lim, Resting(NORMAL, text, tail), chunks);
            Spoilt(frames) || |frames| > |StreamFrames(NORMAL, text + tail + Flatten(chunks))|
    decreases |chunks|
  {
    var buf := text + tail + chunks[0];
    var more := Flatten(chunks[1..]);
    var r := Strip(NORMAL, buf);
    var rest := Split(r.out).rest;
    FlattenAfter(text + tail, chunks);
    PlainStep(buf, more);
    if |buf| > lim.maxBuffer || |rest| + |r.tail| > lim.maxLine {
      SpoiltRead(lim, NORMAL, text, tail, chunks);
    } else {
      OneRead(lim, NORMAL, text, tail, chunks);
      LaterReads(lim, rest, r.tail, chunks[1..]);
      if NoCutCrLf(r.out, Strip(r.flags, r.tail + more).out) {
        StreamStep(NORMAL, buf, more);
        UnfitReadsShow(lim, rest, r.tail, chunks[1..]);
      } else {
        CutStreamStep(NORMAL, buf, more);
        if !ReadsOk(lim, NORMAL, rest, r.tail, chunks[1..]) {
          UnfitReadsShow(lim, rest, r.tail, chunks[1..]);
        }
      }
    }
  }

  lemma LaterReads(lim: Limits, text: seq<u8>, tail: seq<u8>, chunks: seq<seq<u8>>)
    requires AtRest(lim, NORMAL, text, tail)
    ensures ReadsOk(lim, NORMAL, text, tail, chunks) ==>
              Frames(lim, Resting(NORMAL, text, tail), chunks) == StreamFrames(NORMAL, text + tail + Flatten(chunks))
  {
    if ReadsOk(lim, NORMAL, text, tail, chunks) {
      DecodesTheStream(lim, NORMAL, text, tail, chunks);
    }
  }

  // ---------- The same conditions, on the raw bytes before each boundary ----------

  /** How many bytes a decoder holds that has read `p`: the unterminated text and a cut-off command. */
  function Held(p: seq<u8>): nat {
    var r := Strip(NORMAL, p);
    |Split(r.out).rest| + |r.tail|
  }

  /** A read boundary after `p` does not part a cleaned CR from the cleaned LF after it. */
  predicate CutOk(p: seq<u8>, more: seq<u8>) {
    var r := Strip(NORMAL, p);
    NoCutCrLf(r.out, Strip(r.flags, r.tail + more).out)
  }

  /**
    What each of these reads, coming after `p`, must meet: together with the bytes held before
    it, it fits the buffer; what is held after it is no longer than a line; and the boundary
    after it does not part CR from LF.
   */
  predicate BoundariesOk(lim: Limits, p: seq<u8>, chunks: seq<seq<u8>>)
    decreases |chunks|
  {
    chunks == [] ||
    var q := p + chunks[0];
    && Held(p) + |chunks[0]| <= lim.maxBuffer
    && Held(q) <= lim.maxLine
    && CutOk(q, Flatten(chunks[1..]))
    && BoundariesOk(lim, q, chunks[1..])
  }

  /** A boundary that is fine before a longer continuation is fine before a shorter one. */
  lemma CutEarlier(p: seq<u8>, c: seq<u8>, more: seq<u8>)
    requires CutOk(p, c + more)
    ensures CutOk(p, c)
  {
    var r := Strip(NORMAL, p);
    StripAppend(r.flags, r.tail + c, more);
    assert r.tail + c + more == r.tail + (c + more);
  }

  /** Reading `c` after `p`: the kept rest stands in for everything decoded from `p`. */
  lemma RestAfterRead(p: seq<u8>, c: seq<u8>)
    requires Plain(p) && Plain(p + c)
    ensures var r := Strip(NORMAL, p);
            var text := Split(r.out).rest;
            var next := Strip(NORMAL, r.tail + c);
            && r.flags == NORMAL && next.flags == NORMAL
            && Strip(NORMAL, text + r.tail + c) == Prepend(text, next)
            && Strip(NORMAL, p + c) == Prepend(r.out, next)
            && IAC !in text && IAC !in next.out
  {
    var r := Strip(NORMAL, p);
    PlainStrip(p);
    PlainStrip(p + c);
    StripAppend(NORMAL, p, c);
    NoIacKept(r.out);
    PlainPassesThrough(NORMAL, Split(r.out).rest, r.tail + c);
    Regrouped(Split(r.out).rest, r.tail, c);
  }

  /** One read `c` of a plain stream, seen from all of `p` and from what the decoder holds of it. */
  lemma BoundaryAfterRead(p: seq<u8>, c: seq<u8>, more: seq<u8>)
    requires Plain(p) && Plain(p + c) && CutOk(p, c + more)
    ensures var r := Strip(NORMAL, p);
            var w := Strip(NORMAL, p + c);
            var s := Strip(NORMAL, Split(r.out).rest + r.tail + c);
            && s.flags == w.flags == NORMAL && s.tail == w.tail
            && Split(s.out).rest == Split(w.out).rest
            && (NoCutCrLf(s.out, Strip(NORMAL, s.tail + more).out) <==> CutOk(p + c, more))
  {
    CutEarlier(p, c, more);
    RestAfterRead(p, c);
    var r := Strip(NORMAL, p);
    var next := Strip(NORMAL, r.tail + c);
    SplitAppend(r.out, next.out);
    CutAfterRead(p, c, more, next);
  }

  lemma CutAfterRead(p: seq<u8>, c: seq<u8>, more: seq<u8>, next: Stripped)
    requires CutOk(p, c + more)
    requires var r := Strip(NORMAL, p);
             r.flags == next.flags == NORMAL && next == Strip(NORMAL, r.tail + c)
             && Strip(NORMAL, p + c) == Prepend(r.out, next)
    ensures var text := Split(Strip(NORMAL, p).out).rest;
            NoCutCrLf(text + next.out, Strip(NORMAL, next.tail + more).out) <==> CutOk(p + c, more)
  {
    var r := Strip(NORMAL, p);
    StripAppend(NORMAL, r.tail + c, more);
    Regrouped(r.tail, c, more);
    RestShape(r.out);
    SameCut(r.out, Split(r.out).rest, next.out, Strip(NORMAL, next.tail + more).out);
  }

  /** Only the text read last decides whether a boundary parts CR from LF. */
  lemma SameCut(a: seq<u8>, text: seq<u8>, x: seq<u8>, more: seq<u8>)
    requires LineEnd(text) == |text| && NoCutCrLf(a, x + more)
    ensures NoCutCrLf(text + x, more) <==> NoCutCrLf(a + x, more)
  {
    NoCrAtEnd(text);
    EndOfAppend(text, x);
    EndOfAppend(a, x);
    StartOfAppend(x, more);
  }

  /** The two ways of looking at the reads agree. */
  lemma {:induction false} BoundariesAreReads(lim: Limits, p: seq<u8>, chunks: seq<seq<u8>>)
    requires Plain(p + Flatten(chunks)) && CutOk(p, Flatten(chunks))
    ensures var r := Strip(NORMAL, p);
            BoundariesOk(lim, p, chunks) <==> ReadsOk(lim, NORMAL, Split(r.out).rest, r.tail, chunks)
    decreases |chunks|
  {
    if chunks != [] {
      var c, more := chunks[0], Flatten(chunks[1..]);
      PlainRead(p, c, more);
      BoundaryAfterRead(p, c, more);
      HeldIsSafe(p, c);
      if CutOk(p + c, more) {
        BoundariesAreReads(lim, p + c, chunks[1..]);
      }
    }
  }

  lemma HeldIsSafe(p: seq<u8>, c: seq<u8>)
    requires Plain(p) && Plain(p + c)
    ensures var r := Strip(NORMAL, p);
            Safe(NORMAL, Split(r.out).rest + r.tail + c)
  {
    RestAfterRead(p, c);
    var r := Strip(NORMAL, p);
    NoIacKept(Split(r.out).rest + Strip(NORMAL, r.tail + c).out);
  }

  lemma PlainRead(p: seq<u8>, c: seq<u8>, more: seq<u8>)
    requires Plain(p + (c + more))
    ensures Plain(p) && Plain(p + c) && Plain(p + c + more)
  {
    Regrouped(p, c, more);
    PlainPrefix(p, c + more);
    PlainPrefix(p + c, more);
  }

  /**
    On streams with no escaped IAC and no subnegotiation the decoder yields exactly the
    stream's lines if and only if its reads meet these conditions.
   */
  lemma PlainStreamDecodes(lim: Limits, chunks: seq<seq<u8>>)
    requires Plain(Flatten(chunks))
    ensures Frames(lim, FRESH, chunks) == StreamFrames(NORMAL, Flatten(chunks)) <==> BoundariesOk(lim, [], chunks)
  {
    var s := Flatten(chunks);
    assert [] + s == s && [] + [] + s == s;
    BoundariesAreReads(lim, [], chunks);
    StreamsAreNotSpoilt(NORMAL, s);
    if BoundariesOk(lim, [], chunks) {
      DecodesTheStream(lim, NORMAL, [], [], chunks);
    } else {
      UnfitReadsShow(lim, [], [], chunks);
    }
  }

  /** Two ways of reading the same such stream decode alike. */
  lemma ReadBoundariesDoNotMatter(lim: Limits, one: seq<seq<u8>>, other: seq<seq<u8>>)
    requires Flatten(one) == Flatten(other) && Plain(Flatten(one)) && BoundariesOk(lim, [], one)
    ensures Frames(lim, FRESH, one) == Frames(lim, FRESH, other) <==> BoundariesOk(lim, [], other)
  {
    PlainStreamDecodes(lim, one);
    PlainStreamDecodes(lim, other);
  }

  // ---------- Room that always suffices ----------

  /** No boundary before or between these reads parts CR from LF; `p` came before. */
  predicate CutsOk(p: seq<u8>, chunks: seq<seq<u8>>)
    decreases |chunks|
  {
    CutOk(p, Flatten(chunks)) && (chunks == [] || CutsOk(p + chunks[0], chunks[1..]))
  }

  /** All cleaned lines of the stream, the unterminated last one too, leave room for a cut-off command. */
  predicate LinesFit(lim: Limits, s: seq<u8>) {
    var sp := Split(Strip(NORMAL, s).out);
    && lim.maxLine >= 2
    && (forall l :: l in sp.lines ==> |l| <= lim.maxLine - 2)
    && |sp.rest| <= lim.maxLine - 2
  }

  /** No read can push the buffer over its cap, whatever it holds. */
  predicate ReadsFit(lim: Limits, chunks: seq<seq<u8>>) {
    forall c :: c in chunks ==> |c| + lim.maxLine <= lim.maxBuffer
  }

  /** A prefix of a stream with short lines ends in a short unterminated line. */
  lemma PrefixFits(lim: Limits, p: seq<u8>, more: seq<u8>)
    requires LinesFit(lim, p + more)
    ensures Held(p) <= lim.maxLine
  {
    var r := Strip(NORMAL, p);
    TailShape(NORMAL, p);
    StripAppend(NORMAL, p, more);
    SplitLinesFit(r.out, Strip(r.flags, r.tail + more).out, lim.maxLine - 2);
  }

  /** Two bytes of room in every line, and reads that always fit, meet the conditions at every boundary. */
  lemma {:induction false} RoomSuffices(lim: Limits, p: seq<u8>, chunks: seq<seq<u8>>)
    requires LinesFit(lim, p + Flatten(chunks)) && ReadsFit(lim, chunks) && CutsOk(p, chunks)
    ensures BoundariesOk(lim, p, chunks)
    decreases |chunks|
  {
    if chunks != [] {
      var c, more := chunks[0], Flatten(chunks[1..]);
      FlattenAfter(p, chunks);
      PrefixFits(lim, p, Flatten(chunks));
      PrefixFits(lim, p + c, more);
      RoomSuffices(lim, p + c, chunks[1..]);
    }
  }
}
