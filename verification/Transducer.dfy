/**
  The telnet command stripper as a pure transducer: what one left-to-right pass over the raw
  bytes keeps, which bytes it must hold back because a command is cut off at the end, and the
  subnegotiation flags it leaves behind.
 */
module Transducer {
  newtype u8 = x: int | 0 <= x < 256

  const IAC: u8 := 0xFF
  const SB: u8 := 0xFA
  const SE: u8 := 0xF0
  const WILL: u8 := 0xFB
  const WONT: u8 := 0xFC
  const DO: u8 := 0xFD
  const DONT: u8 := 0xFE

  /** The two subnegotiation fields the codec carries from call to call. */
  datatype Flags = Flags(inSub: bool, iacPending: bool)

  const NORMAL: Flags := Flags(false, false)

  /** Cleaned bytes, the incomplete command held back at the end, and the flags left behind. */
  datatype Stripped = Stripped(out: seq<u8>, tail: seq<u8>, flags: Flags)

  /** Commands that take one option byte. */
  predicate IsNegotiation(b: u8) {
    b == WILL || b == WONT || b == DO || b == DONT
  }

  function Prepend(p: seq<u8>, r: Stripped): Stripped {
    Stripped(p + r.out, r.tail, r.flags)
  }

  /** The flags after one more byte of a subnegotiation body. */
  function SubnegotiationByte(f: Flags, b: u8): Flags {
    if f.iacPending && b == SE then Flags(false, false) else Flags(true, b == IAC)
  }

  function Strip(f: Flags, s: seq<u8>): Stripped
    decreases |s|
  {
    if s == [] then Stripped([], [], f)
    else if f.inSub then Strip(SubnegotiationByte(f, s[0]), s[1..])
    else if s[0] != IAC then Prepend([s[0]], Strip(f, s[1..]))
    else if |s| == 1 then Stripped([], s, f)
    else if s[1] == IAC then Prepend([IAC], Strip(f, s[2..]))
    else if IsNegotiation(s[1]) then
      if |s| == 2 then Stripped([], s, f) else Strip(f, s[3..])
    else if s[1] == SB then Strip(Flags(true, false), s[2..])
    else Strip(f, s[2..])
  }

  /** A cut-off command: a lone IAC, or a negotiation that still lacks its option byte. */
  predicate IsIncomplete(t: seq<u8>) {
    || t == []
    || t == [IAC]
    || (|t| == 2 && t[0] == IAC && IsNegotiation(t[1]))
  }

  /** What is held back is a cut-off command, and there is none inside a subnegotiation. */
  lemma {:induction false} TailShape(f: Flags, s: seq<u8>)
    ensures IsIncomplete(Strip(f, s).tail)
    ensures Strip(f, s).flags.inSub ==> Strip(f, s).tail == []
    decreases |s|
  {
    if s != [] {
      if f.inSub {
        TailShape(SubnegotiationByte(f, s[0]), s[1..]);
      } else if s[0] != IAC {
        TailShape(f, s[1..]);
      } else if |s| >= 2 {
        if s[1] == SB {
          TailShape(Flags(true, false), s[2..]);
        } else if !IsNegotiation(s[1]) {
          TailShape(f, s[2..]);
        } else if |s| > 2 {
          TailShape(f, s[3..]);
        }
      }
    }
  }

  /**
    The streaming law: stripping `a`, then stripping what was held back followed by `b` under
    the flags `a` left, concatenates to one pass over `a + b`.
   */
  lemma {:induction false} StripAppend(f: Flags, a: seq<u8>, b: seq<u8>)
    ensures var r := Strip(f, a);
            Strip(f, a + b) == Prepend(r.out, Strip(r.flags, r.tail + b))
    decreases |a|, 1
  {
    if a == [] {
      assert a + b == b;
    } else if f.inSub {
      assert (a + b)[1..] == a[1..] + b;
      StripAppend(SubnegotiationByte(f, a[0]), a[1..], b);
    } else if a[0] != IAC {
      StripAppendByte(f, 1, a, b);
    } else if |a| >= 2 {
      if IsNegotiation(a[1]) {
        if |a| > 2 {
          assert (a + b)[3..] == a[3..] + b;
          StripAppend(f, a[3..], b);
        }
      } else if a[1] == IAC {
        StripAppendByte(f, 2, a, b);
      } else {
        assert (a + b)[2..] == a[2..] + b;
        StripAppend(if a[1] == SB then Flags(true, false) else f, a[2..], b);
      }
    }
  }

  /** The step of the streaming law for the two forms that yield a byte. */
  lemma {:induction false} StripAppendByte(f: Flags, n: nat, a: seq<u8>, b: seq<u8>)
    requires !f.inSub && n <= |a|
    requires (n == 1 && a[0] != IAC) || (n == 2 && a[0] == IAC && a[1] == IAC)
    ensures var r := Strip(f, a);
            Strip(f, a + b) == Prepend(r.out, Strip(r.flags, r.tail + b))
    decreases |a|, 0
  {
    var r := Strip(f, a[n..]);
    assert Strip(f, a) == Prepend([a[0]], r);
    assert (a + b)[n..] == a[n..] + b;
    assert Strip(f, a + b) == Prepend([a[0]], Strip(f, a[n..] + b));
    StripAppend(f, a[n..], b);
    PrependTwice([a[0]], r.out, Strip(r.flags, r.tail + b));
  }

  lemma PrependTwice(p: seq<u8>, q: seq<u8>, r: Stripped)
    ensures Prepend(p, Prepend(q, r)) == Prepend(p + q, r)
  {
    assert p + (q + r.out) == p + q + r.out;
  }

  function Flatten(chunks: seq<seq<u8>>): seq<u8> {
    if chunks == [] then [] else chunks[0] + Flatten(chunks[1..])
  }

  /** Stripping read by read, carrying flags and the held-back bytes into the next read. */
  function StripChunks(f: Flags, tail: seq<u8>, chunks: seq<seq<u8>>): Stripped
    decreases |chunks|
  {
    if chunks == [] then Stripped([], tail, f)
    else
      var r := Strip(f, tail + chunks[0]);
      Prepend(r.out, StripChunks(r.flags, r.tail, chunks[1..]))
  }

  /** However the stream is cut into chunks, stripping read by read equals one pass over it all. */
  lemma {:induction false} StripChunksIsOnePass(f: Flags, tail: seq<u8>, chunks: seq<seq<u8>>)
    requires Strip(f, tail) == Stripped([], tail, f)
    ensures StripChunks(f, tail, chunks) == Strip(f, tail + Flatten(chunks))
    decreases |chunks|
  {
    if chunks == [] {
      assert tail + [] == tail;
    } else {
      var r := Strip(f, tail + chunks[0]);
      TailIsStable(f, tail + chunks[0]);
      StripChunksIsOnePass(r.flags, r.tail, chunks[1..]);
      StripAppend(f, tail + chunks[0], Flatten(chunks[1..]));
      assert tail + Flatten(chunks) == tail + chunks[0] + Flatten(chunks[1..]);
    }
  }

  /** What was held back is held back again: a second pass over it alone changes nothing. */
  lemma TailIsStable(f: Flags, s: seq<u8>)
    ensures var r := Strip(f, s);
            Strip(r.flags, r.tail) == Stripped([], r.tail, r.flags)
  {
    TailShape(f, s);
  }

  /** Outside a subnegotiation, text without IAC passes through unchanged. */
  lemma {:induction false} PlainPassesThrough(f: Flags, a: seq<u8>, b: seq<u8>)
    requires !f.inSub && IAC !in a
    ensures Strip(f, a + b) == Prepend(a, Strip(f, b))
    decreases |a|
  {
    if a == [] {
      assert a + b == b;
    } else {
      assert (a + b)[1..] == a[1..] + b;
      PlainPassesThrough(f, a[1..], b);
      assert [a[0]] + a[1..] == a;
    }
  }

  lemma PlainText(s: seq<u8>)
    requires IAC !in s
    ensures Strip(NORMAL, s) == Stripped(s, [], NORMAL)
  {
    PlainPassesThrough(NORMAL, s, []);
    assert s + [] == s;
  }

  /** Stripping never lengthens the data. */
  lemma {:induction false} StripShrinks(f: Flags, s: seq<u8>)
    ensures |Strip(f, s).out| + |Strip(f, s).tail| <= |s|
    decreases |s|
  {
    if s != [] {
      if f.inSub {
        StripShrinks(SubnegotiationByte(f, s[0]), s[1..]);
      } else if s[0] != IAC {
        StripShrinks(f, s[1..]);
      } else if |s| >= 2 {
        if s[1] == SB {
          StripShrinks(Flags(true, false), s[2..]);
        } else if !IsNegotiation(s[1]) {
          StripShrinks(f, s[2..]);
        } else if |s| > 2 {
          StripShrinks(f, s[3..]);
        }
      }
    }
  }

  // ---------- Where a subnegotiation ends ----------

  /** Position of the first adjacent IAC SE, or the length when there is none. */
  function FirstIacSe(s: seq<u8>): (k: nat)
    ensures k <= |s|
    ensures k < |s| ==> k + 1 < |s| && s[k] == IAC && s[k + 1] == SE
    ensures forall i :: 0 <= i < k && i + 1 < |s| ==> !(s[i] == IAC && s[i + 1] == SE)
  {
    if |s| < 2 then |s|
    else if s[0] == IAC && s[1] == SE then 0
    else
      var k := FirstIacSe(s[1..]);
      assert forall i :: 0 < i < k + 1 && i + 1 < |s| ==> s[i] == s[1..][i - 1] && s[i + 1] == s[1..][i];
      k + 1
  }

  /**
    A subnegotiation runs to its first adjacent IAC SE, doubled IACs notwithstanding: what
    follows that pair is stripped as ordinary input, and without such a pair everything is
    swallowed and the subnegotiation stays open. A pending IAC counts as the byte before.
   */
  lemma SubnegotiationEndsAtFirstIacSe(f: Flags, body: seq<u8>)
    requires f.inSub
    ensures var s := if f.iacPending then [IAC] + body else body;
            var k := FirstIacSe(s);
            if k < |s| then Strip(f, body) == Strip(NORMAL, s[k + 2..])
            else Strip(f, body) == Stripped([], [], Flags(true, s != [] && s[|s| - 1] == IAC))
  {
    var s := if f.iacPending then [IAC] + body else body;
    if f.iacPending {
      assert s[1..] == body;
      assert Strip(Flags(true, false), s) == Strip(f, body);
    }
    FreshSubnegotiation(s);
  }

  lemma {:induction false} FreshSubnegotiation(s: seq<u8>)
    ensures var k := FirstIacSe(s);
            if k < |s| then Strip(Flags(true, false), s) == Strip(NORMAL, s[k + 2..])
            else Strip(Flags(true, false), s) == Stripped([], [], Flags(true, s != [] && s[|s| - 1] == IAC))
    decreases |s|
  {
    if |s| >= 2 {
      if s[0] == IAC && s[1] == SE {
        assert s[1..][1..] == s[2..];
      } else {
        FreshSubnegotiation(s[1..]);
        SkipOne(s);
      }
    }
  }

  lemma SkipOne(s: seq<u8>)
    requires |s| >= 1
    requires !(|s| >= 2 && s[0] == IAC && s[1] == SE)
    ensures FirstIacSe(s) == 1 + FirstIacSe(s[1..])
    ensures FirstIacSe(s) < |s| ==> s[FirstIacSe(s) + 2..] == s[1..][FirstIacSe(s[1..]) + 2..]
  {
  }

  // ---------- What a client's data and commands come to ----------

  /** Data as a client sends it: every IAC doubled. */
  function Escape(data: seq<u8>): seq<u8> {
    if data == [] then []
    else (if data[0] == IAC then [IAC, IAC] else [data[0]]) + Escape(data[1..])
  }

  /** Escaped data comes out as it was, whatever follows. */
  lemma {:induction false} EscapedDataRoundTrips(f: Flags, data: seq<u8>, more: seq<u8>)
    requires !f.inSub
    ensures Strip(f, Escape(data) + more) == Prepend(data, Strip(f, more))
    decreases |data|
  {
    var s := Escape(data) + more;
    if data == [] {
      assert s == more;
    } else {
      var n := if data[0] == IAC then 2 else 1;
      assert s[n..] == Escape(data[1..]) + more;
      EscapedDataRoundTrips(f, data[1..], more);
      PrependTwice([data[0]], data[1..], Strip(f, more));
      assert [data[0]] + data[1..] == data;
    }
  }

  /** A complete command: a negotiation, a two-byte command, or a subnegotiation up to its first IAC SE. */
  predicate IsCommand(c: seq<u8>) {
    && |c| >= 2 && c[0] == IAC && c[1] != IAC
    && if IsNegotiation(c[1]) then |c| == 3
       else if c[1] == SB then FirstIacSe(c[2..]) == |c| - 4
       else |c| == 2
  }

  /** Started normally, stripping ends normally or inside a subnegotiation. */
  lemma {:induction false} FlagsShape(f: Flags, s: seq<u8>)
    requires f.inSub || f == NORMAL
    ensures var g := Strip(f, s).flags; g.inSub || g == NORMAL
    decreases |s|
  {
    if s != [] {
      if f.inSub {
        FlagsShape(SubnegotiationByte(f, s[0]), s[1..]);
      } else if s[0] != IAC {
        FlagsShape(f, s[1..]);
      } else if |s| >= 2 {
        if !IsNegotiation(s[1]) {
          FlagsShape(if s[1] == SB then Flags(true, false) else f, s[2..]);
        } else if |s| > 2 {
          FlagsShape(f, s[3..]);
        }
      }
    }
  }

  lemma CommandVanishes(c: seq<u8>, b: seq<u8>)
    requires IsCommand(c)
    ensures Strip(NORMAL, c + b) == Strip(NORMAL, b)
  {
    var s := c + b;
    if c[1] == SB {
      SubnegotiationEndsAtFirstIacSe(Flags(true, false), c[2..] + b);
      FirstIacSeExtends(c[2..], b);
      assert s[2..] == c[2..] + b;
      assert (c[2..] + b)[|c| - 2..] == b;
    } else {
      assert s[|c|..] == b;
    }
  }

  lemma {:induction false} FirstIacSeExtends(s: seq<u8>, b: seq<u8>)
    requires FirstIacSe(s) < |s|
    ensures FirstIacSe(s + b) == FirstIacSe(s)
    decreases |s|
  {
    if !(s[0] == IAC && s[1] == SE) {
      assert (s + b)[1..] == s[1..] + b;
      FirstIacSeExtends(s[1..], b);
    }
  }

  /** A complete command sent between two data bytes leaves no trace. */
  lemma CommandsAreInvisible(a: seq<u8>, c: seq<u8>, b: seq<u8>)
    requires IsCommand(c)
    requires var r := Strip(NORMAL, a); r.tail == [] && !r.flags.inSub
    ensures Strip(NORMAL, a + c + b) == Strip(NORMAL, a + b)
  {
    FlagsShape(NORMAL, a);
    StripAppend(NORMAL, a, c + b);
    StripAppend(NORMAL, a, b);
    CommandVanishes(c, b);
    assert a + c + b == a + (c + b);
    assert [] + (c + b) == c + b && [] + b == b;
  }

  // ---------- The command table, by byte value ----------

  /** Outside a subnegotiation: what each byte, alone or after a 255, does to the input `b` behind it. */
  lemma CommandTable(f: Flags, c: u8, x: u8, b: seq<u8>)
    requires !f.inSub
    ensures c != 255 ==> Strip(f, [c] + b) == Prepend([c], Strip(f, b))
    ensures Strip(f, [255, 255] + b) == Prepend([255], Strip(f, b))
    ensures 251 <= c <= 254 ==> Strip(f, [255, c, x] + b) == Strip(f, b)
    ensures c < 250 ==> Strip(f, [255, c] + b) == Strip(f, b)
    ensures Strip(f, [255, 250] + b) == Strip(Flags(true, false), b)
  {
    assert ([c] + b)[1..] == b;
    assert ([255, 255] + b)[2..] == b;
    assert ([255, c, x] + b)[3..] == b;
    assert ([255, c] + b)[2..] == b;
    assert ([255, 250] + b)[2..] == b;
  }

  /** What is held back: a 255 alone, or with one of the four bytes that lack their option. */
  lemma CutOffTable(f: Flags, c: u8)
    requires !f.inSub
    ensures Strip(f, [255]) == Stripped([], [255], f)
    ensures 251 <= c <= 254 ==> Strip(f, [255, c]) == Stripped([], [255, c], f)
    ensures c < 250 ==> Strip(f, [255, c]) == Stripped([], [], f)
  {
    assert [255, c][2..] == [];
  }

  /** Nothing else is ever held back. */
  lemma HeldBackTable(f: Flags, s: seq<u8>)
    ensures var tail := Strip(f, s).tail;
            tail == [] || tail == [255] || (|tail| == 2 && tail[0] == 255 && 251 <= tail[1] <= 254)
  {
    TailShape(f, s);
  }

  /** No 255 is followed by a 240. */
  predicate NoEnd(body: seq<u8>) {
    forall i :: 0 <= i < |body| - 1 && body[i] == 255 ==> body[i + 1] != 240
  }

  /** A subnegotiation, 255 250 up to the first 255 240, is swallowed; unfinished it swallows all there is. */
  lemma SubnegotiationTable(f: Flags, body: seq<u8>, b: seq<u8>)
    requires !f.inSub && NoEnd(body)
    ensures Strip(f, [255, 250] + body + [255, 240] + b) == Strip(NORMAL, b)
    ensures Strip(f, [255, 250] + body) == Stripped([], [], Flags(true, body != [] && body[|body| - 1] == 255))
  {
    var s := body + [255, 240] + b;
    assert [255, 250] + body + [255, 240] + b == [255, 250] + s;
    CommandTable(f, 0, 0, s);
    CommandTable(f, 0, 0, body);
    BodyEnds(body, b);
    BodyOpen(body);
  }

  lemma BodyEnds(body: seq<u8>, b: seq<u8>)
    requires NoEnd(body)
    ensures Strip(Flags(true, false), body + [255, 240] + b) == Strip(NORMAL, b)
  {
    var s := body + [255, 240] + b;
    SubnegotiationEndsAtFirstIacSe(Flags(true, false), s);
    FirstEnd(body, b);
    assert s[|body| + 2..] == b;
  }

  lemma BodyOpen(body: seq<u8>)
    requires NoEnd(body)
    ensures Strip(Flags(true, false), body) == Stripped([], [], Flags(true, body != [] && body[|body| - 1] == 255))
  {
    SubnegotiationEndsAtFirstIacSe(Flags(true, false), body);
  }

  lemma FirstEnd(body: seq<u8>, b: seq<u8>)
    requires NoEnd(body)
    ensures FirstIacSe(body + [255, 240] + b) == |body|
  {
    var s := body + [255, 240] + b;
    assert s[|body|] == 255 && s[|body| + 1] == 240;
  }

  // ---------- Stripping text that was already stripped ----------

  /** Re-stripping the kept text `out + tail` in front of any further input loses nothing. */
  ghost predicate RestripHarmless(out: seq<u8>, tail: seq<u8>, f: Flags) {
    forall b: seq<u8> {:trigger Strip(f, tail + b)} :: Strip(f, out + tail + b) == Prepend(out, Strip(f, tail + b))
  }

  /**
    Exactly when the codec may strip text twice: the kept text contains no IAC (so no escaped
    IAC was ever decoded into it) and no subnegotiation is open behind a nonempty text.
   */
  lemma RestripExact(out: seq<u8>, tail: seq<u8>, f: Flags)
    requires IsIncomplete(tail) && (f.inSub ==> tail == [])
    ensures RestripHarmless(out, tail, f) <==> IAC !in out && (f.inSub ==> out == [])
  {
    if IAC !in out && (f.inSub ==> out == []) {
      forall b: seq<u8>
        ensures Strip(f, out + tail + b) == Prepend(out, Strip(f, tail + b))
      {
        assert out + tail + b == out + (tail + b);
        if f.inSub {
          assert out + (tail + b) == tail + b;
        } else {
          PlainPassesThrough(f, out, tail + b);
        }
      }
    } else if RestripHarmless(out, tail, f) {
      assert tail + [] == tail && out + tail + [] == out + tail;
      assert Strip(f, tail + []) == Stripped([], tail, f);
      assert Strip(f, out + tail + []) == Prepend(out, Strip(f, tail + []));
      assert Strip(f, out + tail) == Stripped(out, tail, f);
      if f.inSub {
        assert out + tail == out;
        BodyIsLost(f, out);
      } else {
        EscapeIsLost(f, out, tail);
      }
      assert false;
    }
  }

  lemma {:induction false} BodyIsLost(f: Flags, s: seq<u8>)
    requires f.inSub && s != []
    ensures |Strip(f, s).out| + |Strip(f, s).tail| < |s|
  {
    StripShrinks(SubnegotiationByte(f, s[0]), s[1..]);
  }

  lemma {:induction false} EscapeIsLost(f: Flags, out: seq<u8>, tail: seq<u8>)
    requires !f.inSub && IAC in out
    ensures Strip(f, out + tail) != Stripped(out, tail, f)
    decreases |out|
  {
    var s := out + tail;
    if out[0] != IAC {
      assert s[1..] == out[1..] + tail;
      EscapeIsLost(f, out[1..], tail);
      var r := Strip(f, s[1..]);
      assert ([out[0]] + r.out)[1..] == r.out;
    } else if |s| >= 2 {
      if IsNegotiation(s[1]) {
        if |s| > 2 {
          StripShrinks(f, s[3..]);
        }
      } else {
        StripShrinks(if s[1] == SB then Flags(true, false) else f, s[2..]);
      }
    }
  }
}
