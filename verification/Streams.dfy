/** Concrete streams on which it shows how they are read, or that text is stripped twice. */
module Streams {
  import opened Transducer
  import opened LineSplitter
  import opened Decoder
  import opened Chunking
  import opened Restripping

  const DEFAULT_LIMITS: Limits := Limits(4096, 10 * 1024 * 1024)

  /** A buffer that strips to exactly one terminated line yields that line. */
  lemma OneLineFrames(lim: Limits, f: Flags, buf: seq<u8>, line: seq<u8>, end: seq<u8>, g: Flags, chunks: seq<seq<u8>>)
    requires |buf| <= lim.maxBuffer && NoTerminators(line)
    requires end in {[LF], [CR], [CR, LF]} && Strip(f, buf) == Stripped(line + end, [], g)
    ensures Frames(lim, DecoderState(f, false, buf), chunks) ==
            [Frame(Line(line))] + Frames(lim, DecoderState(g, false, []), chunks)
  {
    var out := line + end;
    LineEndIs(out, |line|);
    assert out + [] == out;
    assert out[..|line|] == line;
    assert out[Consumed(out, |line|)..] == [];
  }

  /** A buffer without a complete line waits for the next read. */
  lemma NoLineFrames(lim: Limits, f: Flags, buf: seq<u8>, text: seq<u8>, g: Flags, c: seq<u8>)
    requires |buf| <= lim.maxBuffer && NoTerminators(text) && |text| <= lim.maxLine
    requires Strip(f, buf) == Stripped(text, [], g)
    ensures Frames(lim, DecoderState(f, false, buf), [c]) == Frames(lim, DecoderState(g, false, text + c), [])
  {
    Unterminated(text);
    assert text + [] == text;
    assert [c][1..] == [];
  }

  /** A single read that strips to exactly one terminated line decodes to that line. */
  lemma SingleLineStream(lim: Limits, buf: seq<u8>, line: seq<u8>, end: seq<u8>)
    requires |buf| <= lim.maxBuffer && NoTerminators(line)
    requires end in {[LF], [CR], [CR, LF]} && Strip(NORMAL, buf) == Stripped(line + end, [], NORMAL)
    ensures Frames(lim, FRESH, [buf]) == [Frame(Line(line))]
  {
    assert [buf] + [] == [buf];
    IdleFrames(lim, NORMAL, buf, []);
    OneLineFrames(lim, NORMAL, buf, line, end, NORMAL, []);
  }

  lemma FirstOfTwoReads(lim: Limits, a: seq<u8>, b: seq<u8>)
    ensures Frames(lim, FRESH, [a, b]) == Frames(lim, DecoderState(NORMAL, false, a), [b])
  {
    assert [a] + [b] == [a, b];
    IdleFrames(lim, NORMAL, a, [b]);
  }

  /** An escaped IAC kept across a read boundary is taken for a command the second time. */
  lemma EscapedIacIsLostAcrossReads()
    ensures Frames(DEFAULT_LIMITS, FRESH, [[IAC, IAC, LF]]) == [Frame(Line([IAC]))]
    ensures Frames(DEFAULT_LIMITS, FRESH, [[IAC, IAC], [LF]]) == []
  {
    EscapeThenLine();
    SingleLineStream(DEFAULT_LIMITS, [IAC, IAC, LF], [IAC], [LF]);
    FirstOfTwoReads(DEFAULT_LIMITS, [IAC, IAC], [LF]);
    NoLineFrames(DEFAULT_LIMITS, NORMAL, [IAC, IAC], [IAC], NORMAL, [LF]);
    NothingLeft(DEFAULT_LIMITS, [IAC] + [LF]);
  }

  lemma EscapeThenLine()
    ensures Strip(NORMAL, [IAC, IAC, LF]) == Stripped([IAC] + [LF], [], NORMAL)
    ensures Strip(NORMAL, [IAC, IAC]) == Stripped([IAC], [], NORMAL)
    ensures Strip(NORMAL, [IAC] + [LF]) == Stripped([], [], NORMAL)
  {
    assert [IAC, IAC, LF][2..] == [LF];
    assert Strip(NORMAL, [LF]) == Stripped([LF], [], NORMAL);
  }

  lemma NothingLeft(lim: Limits, buf: seq<u8>)
    requires |buf| <= lim.maxBuffer && Strip(NORMAL, buf) == Stripped([], [], NORMAL)
    ensures Frames(lim, DecoderState(NORMAL, false, buf), []) == []
  {
    EmptyEof(lim, NORMAL);
  }

  /** So is one in a later line of the same read, since each call strips the rest of the buffer again. */
  lemma EscapedIacIsLostWithinARead()
    ensures Frames(DEFAULT_LIMITS, FRESH, [[LF, IAC, IAC, LF]]) == [Frame(Line([]))]
    ensures StreamFrames(NORMAL, [LF, IAC, IAC, LF]) == [Frame(Line([])), Frame(Line([IAC]))]
  {
    var lim := DEFAULT_LIMITS;
    var s := [LF, IAC, IAC, LF];
    EscapeThenLine();
    assert s[1..] == [IAC, IAC, LF];
    assert Strip(NORMAL, s) == Prepend([LF], Stripped([IAC] + [LF], [], NORMAL));
    TwoLines();
    FirstRead(lim, s);
    FirstLine(lim, DecoderState(NORMAL, false, s));
    assert [IAC] + [LF] + [] == [IAC] + [LF];
    NothingLeft(lim, [IAC] + [LF]);
  }

  lemma TwoLines()
    ensures var out := [LF] + ([IAC] + [LF]);
            && LineEnd(out) == 0 && AfterFirstLine(out) == [IAC] + [LF]
            && AllFrames(Split(out)) == [Frame(Line([])), Frame(Line([IAC]))]
  {
    var out := [LF] + ([IAC] + [LF]);
    var last := [IAC] + [LF];
    LineEndIs(last, 1);
    FirstOfAllFrames(out);
    FirstOfAllFrames(last);
    assert out[1..] == last && last[2..] == [] && last[..1] == [IAC];
    assert AllFrames(Lines([], [])) == [];
  }

  /** Text kept while a subnegotiation is open is swallowed as part of its body. */
  lemma TextBeforeOpenSubnegotiationIsLost(x: u8)
    requires x != IAC && !IsTerminator(x) && x != SE
    ensures Frames(DEFAULT_LIMITS, FRESH, [[x, IAC, SB, IAC, SE, LF]]) == [Frame(Line([x]))]
    ensures Frames(DEFAULT_LIMITS, FRESH, [[x, IAC, SB], [IAC, SE, LF]]) == [Frame(Line([]))]
  {
    var lim := DEFAULT_LIMITS;
    var open := Flags(true, false);
    BodyThenLine(x);
    SingleLineStream(lim, [x, IAC, SB, IAC, SE, LF], [x], [LF]);
    FirstOfTwoReads(lim, [x, IAC, SB], [IAC, SE, LF]);
    NoLineFrames(lim, NORMAL, [x, IAC, SB], [x], open, [IAC, SE, LF]);
    assert [] + [LF] == [LF];
    OneLineFrames(lim, open, [x] + [IAC, SE, LF], [], [LF], NORMAL, []);
    IdleFrames(lim, NORMAL, [], []);
  }

  lemma BodyThenLine(x: u8)
    requires x != IAC
    ensures Strip(NORMAL, [x, IAC, SB, IAC, SE, LF]) == Stripped([x] + [LF], [], NORMAL)
    ensures Strip(NORMAL, [x, IAC, SB]) == Stripped([x], [], Flags(true, false))
    ensures Strip(Flags(true, false), [x] + [IAC, SE, LF]) == Stripped([LF], [], NORMAL)
  {
    var close := [IAC, SE, LF];
    assert Strip(NORMAL, [LF]) == Stripped([LF], [], NORMAL);
    assert close[1..] == [SE, LF] && [SE, LF][1..] == [LF];
    assert Strip(Flags(true, false), close) == Stripped([LF], [], NORMAL);
    assert ([x] + close)[1..] == close;
    var openClose := [IAC, SB, IAC, SE, LF];
    assert openClose[2..] == close;
    assert [x, IAC, SB, IAC, SE, LF][1..] == openClose;
    assert [x, IAC, SB][1..] == [IAC, SB] && [IAC, SB][2..] == [];
    assert Strip(NORMAL, [IAC, SB]) == Stripped([], [], Flags(true, false));
  }

  /** A client's DO ECHO in front of its password leaves no trace in the line. */
  lemma NegotiationBeforeALine(c: u8, option: u8, text: seq<u8>)
    requires 251 <= c <= 254 && |text| + 4 <= DEFAULT_LIMITS.maxBuffer
    requires forall i :: 0 <= i < |text| ==> text[i] != 10 && text[i] != 13 && text[i] != 255
    ensures Frames(DEFAULT_LIMITS, FRESH, [[255, c, option] + (text + [10])]) == [Frame(Line(text))]
  {
    var line := text + [10];
    CommandTable(NORMAL, c, option, line);
    PlainText(line);
    SingleLineStream(DEFAULT_LIMITS, [255, c, option] + line, text, [10]);
  }

  /** A command cut off by the end of input leaves no trace either, whichever of the four it is. */
  lemma CutOffAtEof(c: u8, text: seq<u8>, tail: seq<u8>)
    requires tail == [255] || (251 <= c <= 254 && tail == [255, c]) || tail == []
    requires forall i :: 0 <= i < |text| ==> text[i] != 10 && text[i] != 13 && text[i] != 255
    requires |text| + 2 <= DEFAULT_LIMITS.maxLine
    ensures Frames(DEFAULT_LIMITS, FRESH, [text + tail]) == if text == [] then [] else [Frame(Line(text))]
  {
    CutOffTable(NORMAL, c);
    PlainPassesThrough(NORMAL, text, tail);
    assert text + [] == text;
    TerminatorTable(text, []);
    SingleReadExact(DEFAULT_LIMITS, text + tail);
    LineEndIs(text, |text|);
    assert AllFrames(Lines([], text)) == LastLine(text);
  }

  /** A read boundary between CR and LF adds an empty line. */
  lemma CutCrLfAddsALine()
    ensures Frames(DEFAULT_LIMITS, FRESH, [[CR, LF]]) == [Frame(Line([]))]
    ensures Frames(DEFAULT_LIMITS, FRESH, [[CR], [LF]]) == [Frame(Line([])), Frame(Line([]))]
  {
    var lim := DEFAULT_LIMITS;
    TerminatorsStrip();
    SingleLineStream(lim, [CR, LF], [], [CR, LF]);
    SingleLineStream(lim, [LF], [], [LF]);
    FirstOfTwoReads(lim, [CR], [LF]);
    OneLineFrames(lim, NORMAL, [CR], [], [CR], NORMAL, [[LF]]);
  }

  /**
    That the stream may end anywhere matters: the text lost behind this open subnegotiation is
    made good by the byte that closes it, so the whole stream decodes right.
   */
  lemma LossMadeGood()
    ensures Faithful(DEFAULT_LIMITS, [[SE, IAC, SB, IAC], [SE, LF]])
    ensures !Faithful(DEFAULT_LIMITS, [[SE, IAC, SB, IAC]])
  {
    var a, b := [SE, IAC, SB, IAC], [SE, LF];
    SeStrips();
    SeTwoReads();
    assert a + b == [SE, IAC, SB, IAC, SE, LF];
    SplitOneLine([SE], [LF]);
    SingleReadExact(DEFAULT_LIMITS, a);
    FlattenTwo(a, b);
    Unterminated([SE]);
  }

  /**
    That CR LF is kept together matters as well: here the empty line that the cut adds takes the
    place of one lost in front of an open subnegotiation, wherever the stream ends.
   */
  lemma TwoWrongs()
    ensures Faithful(DEFAULT_LIMITS, []) && Faithful(DEFAULT_LIMITS, [[CR]])
    ensures Faithful(DEFAULT_LIMITS, [[CR], [LF, LF, IAC, SB]])
    ensures !ReadsOk(DEFAULT_LIMITS, NORMAL, [], [], [[CR], [LF, LF, IAC, SB]])
  {
    FlattenTwo([CR], [LF, LF, IAC, SB]);
    TwoWrongsFrames();
    TwoWrongsCut();
    LoneCr();
    IdleFrames(DEFAULT_LIMITS, NORMAL, [], []);
  }

  lemma LoneCr()
    ensures Faithful(DEFAULT_LIMITS, [[CR]])
  {
    TerminatorsStrip();
    FlattenTwo([CR], []);
    SplitOneLine([], [CR]);
    SingleLineStream(DEFAULT_LIMITS, [CR], [], [CR]);
  }

  lemma TwoWrongsStrip()
    ensures Strip(NORMAL, [LF, LF, IAC, SB]) == Stripped([LF, LF], [], Flags(true, false))
    ensures Strip(Flags(true, false), [LF]) == Stripped([], [], Flags(true, false))
  {
    assert [LF][1..] == [];
    assert Strip(Flags(true, false), []) == Stripped([], [], Flags(true, false));
    assert [IAC, SB][2..] == [];
    assert Strip(NORMAL, [IAC, SB]) == Stripped([], [], Flags(true, false));
    PlainPassesThrough(NORMAL, [LF, LF], [IAC, SB]);
    assert [LF, LF] + [IAC, SB] == [LF, LF, IAC, SB] && [LF, LF] + [] == [LF, LF];
  }

  lemma TwoWrongsFrames()
    ensures Frames(DEFAULT_LIMITS, FRESH, [[CR], [LF, LF, IAC, SB]]) == [Frame(Line([])), Frame(Line([]))]
  {
    var lim := DEFAULT_LIMITS;
    var b := [LF, LF, IAC, SB];
    var open := Flags(true, false);
    TerminatorsStrip();
    TwoWrongsStrip();
    FirstOfTwoReads(lim, [CR], b);
    OneLineFrames(lim, NORMAL, [CR], [], [CR], NORMAL, [b]);
    assert [b] + [] == [b];
    IdleFrames(lim, NORMAL, b, []);
    LineEndIs([LF, LF], 0);
    assert [LF, LF][1..] == [LF] && [LF] + [] == [LF];
    FirstLine(lim, DecoderState(NORMAL, false, b));
    UnterminatedFrames(lim, DecoderState(open, false, [LF]));
    EmptyEof(lim, open);
    assert [Frame(Line([]))] + ([Frame(Line([]))] + []) == [Frame(Line([])), Frame(Line([]))];
  }

  lemma TwoWrongsCut()
    ensures var s := [CR] + [LF, LF, IAC, SB];
            StreamFrames(NORMAL, s) == [Frame(Line([])), Frame(Line([]))]
    ensures !ReadsOk(DEFAULT_LIMITS, NORMAL, [], [], [[CR], [LF, LF, IAC, SB]])
  {
    var a, b := [CR], [LF, LF, IAC, SB];
    var out := [CR, LF] + [LF];
    TerminatorsStrip();
    TwoWrongsStrip();
    StripAppend(NORMAL, a, b);
    assert [] + b == b && [CR] + [LF, LF] == out && [] + [] + a == a;
    LineEndIs(out, 0);
    assert out[2..] == [LF] && out[..0] == [];
    FirstOfAllFrames(out);
    SplitOneLine([], [LF]);
    assert [] + [LF] == [LF];
    assert [a, b][1..] == [b];
    FlattenTwo(b, a);
  }

  lemma FlattenTwo(a: seq<u8>, b: seq<u8>)
    ensures Flatten([a, b]) == a + b && Flatten([a]) == a
  {
    assert [a, b][1..] == [b] && [b][1..] == [] && [a][1..] == [];
    assert Flatten([b]) == b + [] == b;
  }

  lemma SplitOneLine(line: seq<u8>, end: seq<u8>)
    requires NoTerminators(line) && end in {[LF], [CR], [CR, LF]}
    ensures AllFrames(Split(line + end)) == [Frame(Line(line))]
  {
    var out := line + end;
    LineEndIs(out, |line|);
    assert out[..|line|] == line && out[Consumed(out, |line|)..] == [];
    SplitStep(out);
    assert [line] + [] == [line];
  }

  lemma SeTwoReads()
    ensures Frames(DEFAULT_LIMITS, FRESH, [[SE, IAC, SB, IAC], [SE, LF]]) == [Frame(Line([SE]))]
  {
    var lim := DEFAULT_LIMITS;
    var a, b, open := [SE, IAC, SB, IAC], [SE, LF], Flags(true, true);
    SeStrips();
    FirstOfTwoReads(lim, a, b);
    NoLineFrames(lim, NORMAL, a, [SE], open, b);
    OneLineFrames(lim, open, [SE] + b, [SE], [LF], NORMAL, []);
    IdleFrames(lim, NORMAL, [], []);
  }

  lemma SeStrips()
    ensures Strip(NORMAL, [SE, IAC, SB, IAC, SE, LF]) == Stripped([SE] + [LF], [], NORMAL)
    ensures Strip(NORMAL, [SE, IAC, SB, IAC]) == Stripped([SE], [], Flags(true, true))
    ensures Strip(Flags(true, true), [SE] + [SE, LF]) == Stripped([SE] + [LF], [], NORMAL)
  {
    PlainText([LF]);
    PlainText([SE, LF]);
    assert [SE] + [LF] == [SE, LF];
    assert ([SE] + [SE, LF])[1..] == [SE, LF];
    assert [SE, LF][1..] == [LF];
    assert [IAC, SE, LF][1..] == [SE, LF];
    assert Strip(Flags(true, true), [SE, LF]) == Stripped([LF], [], NORMAL);
    assert Strip(Flags(true, false), [IAC, SE, LF]) == Stripped([LF], [], NORMAL);
    assert [IAC, SB, IAC, SE, LF][2..] == [IAC, SE, LF];
    assert [SE, IAC, SB, IAC, SE, LF][1..] == [IAC, SB, IAC, SE, LF];
    assert [IAC][1..] == [] && Strip(Flags(true, true), []) == Stripped([], [], Flags(true, true));
    assert Strip(Flags(true, false), [IAC]) == Stripped([], [], Flags(true, true));
    assert [IAC, SB, IAC][2..] == [IAC];
    assert [SE, IAC, SB, IAC][1..] == [IAC, SB, IAC];
  }

  lemma TerminatorsStrip()
    ensures Strip(NORMAL, [CR, LF]) == Stripped([] + [CR, LF], [], NORMAL)
    ensures Strip(NORMAL, [CR]) == Stripped([] + [CR], [], NORMAL)
    ensures Strip(NORMAL, [LF]) == Stripped([] + [LF], [], NORMAL)
  {
    assert [CR, LF][1..] == [LF] && [CR] + [LF] == [CR, LF];
    assert Strip(NORMAL, [LF]) == Stripped([LF], [], NORMAL);
    assert [] + [CR, LF] == [CR, LF] && [] + [CR] == [CR] && [] + [LF] == [LF];
  }

  /**
    The two bytes of room are needed: a line one byte short of the limit is rejected when the
    read ends in a negotiation that lacks its option byte, although no line exceeds the limit.
   */
  lemma RoomForACutOffCommandIsNeeded(lim: Limits, text: seq<u8>, chunks: seq<seq<u8>>)
    requires NoTerminators(text) && IAC !in text && |text| == lim.maxLine - 1
    requires |text| + 2 <= lim.maxBuffer
    ensures var frames := Frames(lim, FRESH, [text + [IAC, WILL]] + chunks);
            frames != [] && frames[0] == Frame(LineTooLong)
  {
    var first := text + [IAC, WILL];
    assert Decode(lim, FRESH) == (FRESH, NoFrame);
    PlainPassesThrough(NORMAL, text, [IAC, WILL]);
    assert Strip(NORMAL, [IAC, WILL]) == Stripped([], [IAC, WILL], NORMAL);
    assert text + [] == text;
    Unterminated(first);
    assert ([first] + chunks)[0] == first && [] + first == first;
  }
}
