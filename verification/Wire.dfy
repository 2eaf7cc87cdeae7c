/** Lines as a client puts them on the wire, and their way through the decoder. */
module Wire {
  import opened Transducer
  import opened LineSplitter
  import opened Decoder
  import opened Resync

  /** A line and the terminator it was sent with. */
  datatype Sent = Sent(line: seq<u8>, end: seq<u8>)

  function Join(sent: seq<Sent>, rest: seq<u8>): seq<u8> {
    if sent == [] then rest else sent[0].line + sent[0].end + Join(sent[1..], rest)
  }

  function LinesOf(sent: seq<Sent>): seq<seq<u8>> {
    if sent == [] then [] else [sent[0].line] + LinesOf(sent[1..])
  }

  lemma {:induction false} LinesOfAt(sent: seq<Sent>)
    ensures |LinesOf(sent)| == |sent| && forall i :: 0 <= i < |sent| ==> LinesOf(sent)[i] == sent[i].line
  {
    if sent != [] {
      LinesOfAt(sent[1..]);
    }
  }

  /** Lines without terminators inside; a lone CR is not followed by LF, which would complete it. */
  predicate WellSent(sent: seq<Sent>, rest: seq<u8>) {
    if sent == [] then NoTerminators(rest)
    else
      && NoTerminators(sent[0].line)
      && sent[0].end in {[LF], [CR], [CR, LF]}
      && (sent[0].end == [CR] ==> NoCutCrLf([CR], Join(sent[1..], rest)))
      && WellSent(sent[1..], rest)
  }

  lemma FirstSent(sent: seq<Sent>, rest: seq<u8>)
    requires sent != [] && WellSent(sent, rest)
    ensures var s := Join(sent, rest);
            && LineEnd(s) == |sent[0].line| < |s|
            && s[..LineEnd(s)] == sent[0].line
            && AfterFirstLine(s) == Join(sent[1..], rest)
  {
    var s := Join(sent, rest);
    var line, end, next := sent[0].line, sent[0].end, Join(sent[1..], rest);
    Unterminated(line);
    forall i | 0 <= i < |line|
      ensures !IsTerminator(s[i])
    {
      assert s[i] == line[i] && line[i] in line;
    }
    assert s[|line|] == end[0];
    LineEndIs(s, |line|);
    assert Consumed(s, |line|) == |line| + |end| by {
      if end == [CR] && next != [] {
        assert s[|line| + 1] == next[0];
      } else if |end| == 2 {
        assert s[|line| + 1] == end[1];
      }
    }
    assert s == (line + end) + next;
    assert s[|line| + |end|..] == next;
    assert s[..|line|] == line;
  }

  /** Splitting what was joined gives back the lines and the rest. */
  lemma {:induction false} SplitOfJoin(sent: seq<Sent>, rest: seq<u8>)
    requires WellSent(sent, rest)
    ensures Split(Join(sent, rest)) == Lines(LinesOf(sent), rest)
    decreases |sent|
  {
    if sent == [] {
      Unterminated(rest);
    } else {
      FirstSent(sent, rest);
      SplitStep(Join(sent, rest));
      SplitOfJoin(sent[1..], rest);
    }
  }

  /** The terminator of the first line, taken off the front. */
  lemma FirstTerminator(s: seq<u8>) returns (end: seq<u8>)
    requires LineEnd(s) < |s|
    ensures end in {[LF], [CR], [CR, LF]}
    ensures s == s[..LineEnd(s)] + end + AfterFirstLine(s)
    ensures end == [CR] ==> NoCutCrLf([CR], AfterFirstLine(s))
    ensures NoTerminators(s[..LineEnd(s)])
  {
    var e := LineEnd(s);
    var n := Consumed(s, e);
    end := s[e..n];
    assert s == s[..e] + s[e..n] + s[n..];
    if n == e + 1 {
      assert end == [s[e]];
    } else {
      assert end == [s[e], s[e + 1]];
    }
  }

  /** Every text is such a sequence of lines, and only the one splitting finds. */
  lemma {:induction false} JoinOfSplit(s: seq<u8>) returns (sent: seq<Sent>)
    ensures WellSent(sent, Split(s).rest)
    ensures Join(sent, Split(s).rest) == s && LinesOf(sent) == Split(s).lines
    decreases |s|
  {
    if LineEnd(s) == |s| {
      Unterminated(s);
      sent := [];
    } else {
      var end := FirstTerminator(s);
      var more := JoinOfSplit(AfterFirstLine(s));
      SplitStep(s);
      sent := [Sent(s[..LineEnd(s)], end)] + more;
      assert sent[1..] == more;
    }
  }

  /**
    What is typed is what arrives: plain lines of at most max_line_length bytes, sent with any
    terminators and read in any way that neither overflows the buffer nor parts CR from LF,
    come out one by one and unchanged, followed by the unterminated rest.
   */
  lemma LinesArriveAsSent(lim: Limits, slack: nat, sent: seq<Sent>, rest: seq<u8>, chunks: seq<seq<u8>>)
    requires WellSent(sent, rest) && Flatten(chunks) == Join(sent, rest)
    requires TextReads(lim, slack, [], chunks)
    requires (forall l :: l in LinesOf(sent) ==> |l| <= lim.maxLine) && |rest| <= lim.maxLine
    ensures Frames(lim, FRESH, chunks) == LineFrames(LinesOf(sent) + if rest == [] then [] else [rest])
  {
    SplitOfJoin(sent, rest);
    LinesResynchronise(lim, slack, chunks);
    ShortLinesPass(lim, slack, LinesOf(sent) + if rest == [] then [] else [rest], Frames(lim, FRESH, chunks));
  }

  /** Frames that answer short lines are those lines. */
  lemma ShortLinesPass(lim: Limits, slack: nat, lines: seq<seq<u8>>, frames: seq<Decoded>)
    requires AnswersEach(lim, slack, lines, frames) && forall l :: l in lines ==> |l| <= lim.maxLine
    ensures frames == LineFrames(lines)
  {
    forall i | 0 <= i < |lines|
      ensures frames[i] == Frame(Line(lines[i]))
    {
      assert Answers(lim, slack, lines[i], frames[i]) && lines[i] in lines;
    }
  }
}
