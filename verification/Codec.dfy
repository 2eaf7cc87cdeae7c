/**
  The codec as it runs: a growable byte buffer compacted in place, a codec object whose flags
  persist between calls, and the framed reader that drives them. Every method is tied to the
  functions of module Decoder.
 */
module Codec {
  import opened Transducer
  import opened LineSplitter
  import opened Decoder
  import opened Wrappers

  /** Bytes `lo..hi` of `store`. */
  class ByteBuffer {
    var store: array<u8>
    var lo: nat
    var hi: nat

    ghost predicate Valid()
      reads this
    {
      lo <= hi <= store.Length
    }

    function Contents(): (s: seq<u8>)
      requires Valid()
      reads this, store
      ensures |s| == hi - lo
    {
      store[lo..hi]
    }

    function Len(): nat
      requires Valid()
      reads this, store
    {
      hi - lo
    }

    constructor ()
      ensures Valid() && Contents() == [] && fresh(store)
    {
      store := new u8[0];
      lo, hi := 0, 0;
    }

    /** Append a read, moving to a fresh allocation. */
    method Extend(chunk: seq<u8>)
      requires Valid()
      modifies this
      ensures Valid() && fresh(store)
      ensures Contents() == old(Contents()) + chunk
    {
      var held := Contents();
      var grown := new u8[|held| + |chunk|](i requires 0 <= i < |held| + |chunk| => (held + chunk)[i]);
      assert grown[..] == held + chunk;
      store, lo, hi := grown, 0, |held| + |chunk|;
    }

    /** Drop the first `n` bytes. */
    method SplitTo(n: nat)
      requires Valid() && n <= |Contents()|
      modifies this`lo
      ensures Valid() && Contents() == old(Contents())[n..]
    {
      lo := lo + n;
    }

    /** Keep the first `n` bytes. */
    method Truncate(n: nat)
      requires Valid() && n <= |Contents()|
      modifies this`hi
      ensures Valid() && Contents() == old(Contents())[..n]
    {
      assert Contents()[..n] == store[lo..lo + n];
      hi := lo + n;
    }

    method Clear()
      requires Valid()
      modifies this`hi
      ensures Valid() && Contents() == []
    {
      hi := lo;
    }
  }

  method FindLineTerminator(buf: ByteBuffer) returns (pos: Option<nat>)
    requires buf.Valid()
    ensures var e := LineEnd(buf.Contents());
            pos == if e < |buf.Contents()| then Some(e) else None
  {
    var i := 0;
    ghost var s := buf.Contents();
    while i < buf.hi - buf.lo
      invariant i <= |s|
      invariant forall k :: 0 <= k < i ==> !IsTerminator(s[k])
    {
      assert s[i] == buf.store[buf.lo + i];
      if IsTerminator(buf.store[buf.lo + i]) {
        LineEndIs(s, i);
        return Some(i);
      }
      i := i + 1;
    }
    LineEndIs(s, i);
    return None;
  }

  method ConsumeTerminator(buf: ByteBuffer, pos: nat) returns (n: nat)
    requires buf.Valid() && pos < |buf.Contents()|
    ensures n == Consumed(buf.Contents(), pos)
  {
    var at := buf.lo + pos;
    if buf.store[at] == CR && at + 1 < buf.hi && buf.store[at + 1] == LF {
      n := pos + 2;
    } else {
      n := pos + 1;
    }
  }

  /** Copy `n` elements down from `from` to `to`, one by one from the left. */
  method MoveDown(a: array<u8>, from: nat, to: nat, n: nat)
    requires to <= from && from + n <= a.Length
    modifies a
    ensures forall j :: 0 <= j < to ==> a[j] == old(a[j])
    ensures forall j :: to <= j < to + n ==> a[j] == old(a[..])[j - to + from]
    ensures forall j :: to + n <= j < a.Length ==> a[j] == old(a[j])
  {
    var i := 0;
    while i < n
      invariant i <= n
      invariant forall j :: 0 <= j < to ==> a[j] == old(a[j])
      invariant forall j :: to <= j < to + i ==> a[j] == old(a[..])[j - to + from]
      invariant forall j :: to + i <= j < a.Length ==> a[j] == old(a[j])
    {
      a[to + i] := a[from + i];
      i := i + 1;
    }
  }

  class TelnetLineCodec {
    const lim: Limits
    var discarding: bool
    var inSubnegotiation: bool
    var subnegIacPending: bool

    constructor (maxLine: nat, maxBuffer: nat)
      ensures lim == Limits(maxLine, maxBuffer)
      ensures !discarding && CurrentFlags() == NORMAL
    {
      lim := Limits(maxLine, maxBuffer);
      discarding, inSubnegotiation, subnegIacPending := false, false, false;
    }

    ghost function CurrentFlags(): Flags
      reads this
    {
      Flags(inSubnegotiation, subnegIacPending)
    }

    ghost function State(buf: ByteBuffer): DecoderState
      requires buf.Valid()
      reads this, buf, buf.store
    {
      DecoderState(CurrentFlags(), discarding, buf.Contents())
    }

    /** Strip telnet commands from the buffer in place. */
    method StripIac(buf: ByteBuffer)
      requires buf.Valid()
      modifies this`inSubnegotiation, this`subnegIacPending, buf`hi, buf.store
      ensures buf.Valid()
      ensures var r := Strip(old(CurrentFlags()), old(buf.Contents()));
              buf.Contents() == r.out + r.tail && CurrentFlags() == r.flags
    {
      var write := Compact(buf.store, buf.lo, buf.hi - buf.lo);
      buf.Truncate(write);
    }

    /** One byte of a subnegotiation body: only the flags change. */
    method SwallowBodyByte(b: u8, ghost s: seq<u8>, ghost read: nat)
      requires inSubnegotiation && read < |s| && s[read] == b
      modifies this`inSubnegotiation, this`subnegIacPending
      ensures CurrentFlags() == SubnegotiationByte(old(CurrentFlags()), b)
      ensures Strip(CurrentFlags(), s[read + 1..]) == Strip(old(CurrentFlags()), s[read..])
    {
      Suffix(s, read);
      if subnegIacPending {
        subnegIacPending := false;
        if b == SE {
          inSubnegotiation := false;
          return;
        }
        if b != IAC {
          return;
        }
      }
      if b == IAC {
        subnegIacPending := true;
      }
    }

    /**
      The two-cursor pass over `len` bytes from `base`. The write cursor never overtakes the
      read cursor, so the unread suffix is still the original input at every step.
     */
    method Compact(a: array<u8>, base: nat, len: nat) returns (write: nat)
      requires base + len <= a.Length
      modifies this`inSubnegotiation, this`subnegIacPending, a
      ensures write <= len
      ensures var r := Strip(old(CurrentFlags()), old(a[base..base + len]));
              a[base..base + write] == r.out + r.tail && CurrentFlags() == r.flags
      ensures forall j :: 0 <= j < a.Length && !(base <= j < base + write) ==> a[j] == old(a[j])
    {
      var read, stop := 0, false;
      write := 0;
      ghost var s := a[base..base + len];
      ghost var out: seq<u8> := [];
      ghost var all := Strip(CurrentFlags(), s);
      assert s[0..] == s && Prepend([], all) == all;
      while read < len && !stop
        invariant write <= read <= len
        invariant !stop ==> Cursors(a, base, s, out, read, write)
        invariant !stop ==> all == Prepend(out, Strip(CurrentFlags(), s[read..]))
        invariant stop ==> a[base..base + write] == all.out + all.tail && CurrentFlags() == all.flags
        invariant forall j :: 0 <= j < a.Length && !(base <= j < base + write) ==> a[j] == old(a[j])
        modifies this`inSubnegotiation, this`subnegIacPending, a
        decreases !stop, len - read
      {
        read, write, stop, out := Advance(a, base, len, read, write, s, out);
      }
      if !stop {
        CutOff(out, s[read..], CurrentFlags());
        SliceIs(a, base, write, out, []);
      }
    }

    /** One turn of the pass: a body byte, a text byte, or a command at the read cursor. */
    method Advance(a: array<u8>, base: nat, len: nat, read: nat, write: nat, ghost s: seq<u8>, ghost out: seq<u8>)
      returns (read': nat, write': nat, stop: bool, ghost out': seq<u8>)
      requires base + len <= a.Length && |s| == len && read < len && write <= read
      requires Cursors(a, base, s, out, read, write)
      modifies this`inSubnegotiation, this`subnegIacPending, a
      ensures write <= write' <= read' <= len && (!stop ==> read' > read)
      ensures forall j :: 0 <= j < a.Length && !(base <= j < base + write') ==> a[j] == old(a[j])
      ensures !stop ==> Cursors(a, base, s, out', read', write')
      ensures var all := Prepend(out, Strip(old(CurrentFlags()), s[read..]));
              if stop then a[base..base + write'] == all.out + all.tail && CurrentFlags() == all.flags
              else all == Prepend(out', Strip(CurrentFlags(), s[read'..]))
    {
      if inSubnegotiation {
        SwallowBodyByte(a[base + read], s, read);
        return read + 1, write, false, out;
      }
      if a[base + read] != IAC {
        KeepByte(a, base, s, out, read, write);
        return read + 1, write + 1, false, out + [s[read]];
      }
      read', write', stop, out' := TakeCommand(a, base, len, read, write, s, out);
    }

    /** Copy the byte at the read cursor down to the write cursor. */
    method KeepByte(a: array<u8>, base: nat, ghost s: seq<u8>, ghost out: seq<u8>, read: nat, write: nat)
      requires read < |s| && Cursors(a, base, s, out, read, write)
      modifies a
      requires !inSubnegotiation && s[read] != IAC
      ensures Cursors(a, base, s, out + [s[read]], read + 1, write + 1)
      ensures forall j :: 0 <= j < a.Length && !(base <= j < base + write + 1) ==> a[j] == old(a[j])
      ensures Prepend(out + [s[read]], Strip(CurrentFlags(), s[read + 1..])) == Prepend(out, Strip(CurrentFlags(), s[read..]))
    {
      StepByte(out, s, read, 1, CurrentFlags());
      a[base + write] := a[base + read];
    }

    /** IAC at the read cursor: skip a whole command, or keep a cut-off one and stop. */
    method TakeCommand(a: array<u8>, base: nat, len: nat, read: nat, write: nat, ghost s: seq<u8>, ghost out: seq<u8>)
      returns (read': nat, write': nat, stop: bool, ghost out': seq<u8>)
      requires base + len <= a.Length && |s| == len && read < len && write <= read
      requires Cursors(a, base, s, out, read, write)
      requires !inSubnegotiation && s[read] == IAC
      modifies this`inSubnegotiation, this`subnegIacPending, a
      ensures write <= write' <= read' <= len && (!stop ==> read' > read)
      ensures forall j :: 0 <= j < a.Length && !(base <= j < base + write') ==> a[j] == old(a[j])
      ensures !stop ==> Cursors(a, base, s, out', read', write')
      ensures var all := Prepend(out, Strip(old(CurrentFlags()), s[read..]));
              if stop then a[base..base + write'] == all.out + all.tail && CurrentFlags() == all.flags
              else all == Prepend(out', Strip(CurrentFlags(), s[read'..]))
    {
      read', write', stop, out' := read, write, false, out;
      Suffix(s, read);
      if read + 1 >= len {
        write' := KeepCutOff(a, base, len, read, write, s, out);
        return len, write', true, out;
      }
      var cmd := a[base + read + 1];
      if cmd == IAC {
        StepByte(out, s, read, 2, CurrentFlags());
        a[base + write] := IAC;
        return read + 2, write + 1, false, out + [IAC];
      }
      if IsNegotiation(cmd) {
        if read + 2 >= len {
          write' := KeepCutOff(a, base, len, read, write, s, out);
          return len, write', true, out;
        }
        return read + 3, write, false, out;
      }
      if cmd == SB {
        inSubnegotiation := true;
        subnegIacPending := false;
      }
      return read + 2, write, false, out;
    }

    /** The bytes of a cut-off command are kept behind the output, and end the pass. */
    method KeepCutOff(a: array<u8>, base: nat, len: nat, read: nat, write: nat, ghost s: seq<u8>, ghost out: seq<u8>)
      returns (write': nat)
      requires |s| == len && Cursors(a, base, s, out, read, write)
      requires !inSubnegotiation && IsIncomplete(s[read..])
      modifies a
      ensures write' == write + (len - read)
      ensures forall j :: 0 <= j < a.Length && !(base <= j < base + write') ==> a[j] == old(a[j])
      ensures var all := Prepend(out, Strip(CurrentFlags(), s[read..]));
              a[base..base + write'] == all.out + all.tail && CurrentFlags() == all.flags
    {
      CutOff(out, s[read..], CurrentFlags());
      MoveDown(a, base + read, base + write, len - read);
      write' := write + (len - read);
      SliceIs(a, base, write', out, s[read..]);
    }

    /** Take the next line off the buffer, or report that more input is needed. */
    method Decode(buf: ByteBuffer) returns (d: Decoded)
      requires buf.Valid()
      modifies this, buf`lo, buf`hi, buf.store
      ensures buf.Valid()
      ensures (State(buf), d) == Decoder.Decode(lim, old(State(buf)))
      decreases |buf.Contents()|
    {
      if buf.Len() > lim.maxBuffer {
        return Overflow;
      }
      StripShrinks(CurrentFlags(), buf.Contents());
      StripIac(buf);
      var found := FindLineTerminator(buf);
      match found
      case Some(pos) =>
        var consumed := ConsumeTerminator(buf, pos);
        if discarding {
          buf.SplitTo(consumed);
          discarding := false;
          d := Decode(buf);
          return;
        }
        var line := buf.Contents()[..pos];
        buf.SplitTo(consumed);
        return Frame(Line(line));
      case None =>
        if discarding {
          buf.Clear();
          return NoFrame;
        }
        if buf.Len() > lim.maxLine {
          buf.Clear();
          discarding := true;
          return Frame(LineTooLong);
        }
        return NoFrame;
    }

    /** At end of input: what `Decode` yields, then the unterminated rest, then nothing. */
    method DecodeEof(buf: ByteBuffer) returns (d: Decoded)
      requires buf.Valid()
      modifies this, buf`lo, buf`hi, buf.store
      ensures buf.Valid()
      ensures (State(buf), d) == Decoder.DecodeEof(lim, old(State(buf)))
    {
      d := Decode(buf);
      if !d.NoFrame? {
        return;
      }
      if buf.Len() == 0 || discarding {
        buf.Clear();
        discarding := false;
      } else if inSubnegotiation || buf.store[buf.lo] == IAC {
        buf.Clear();
        inSubnegotiation := false;
        subnegIacPending := false;
      } else {
        var end := TrimmedEnd(buf.Contents());
        if end == 0 {
          buf.Clear();
          return;
        }
        var line := buf.Contents()[..end];
        buf.Clear();
        d := Frame(Line(line));
      }
    }
  }

  /**
    The framed reader: hands out everything `Decode` finds, reads once more when it wants
    input, and after the last read hands out what `DecodeEof` finds.
   */
  class FramedRead {
    const codec: TelnetLineCodec
    const buffer: ByteBuffer
    var pending: seq<seq<u8>>
    var ended: bool
    var atEof: bool

    constructor (codec: TelnetLineCodec, chunks: seq<seq<u8>>)
      ensures Valid() && fresh(buffer) && fresh(buffer.store) && this.codec == codec
      ensures Remaining() == Frames(codec.lim, DecoderState(codec.CurrentFlags(), codec.discarding, []), chunks)
    {
      this.codec := codec;
      buffer := new ByteBuffer();
      pending, ended, atEof := chunks, false, false;
    }

    ghost predicate Valid()
      reads this, buffer
    {
      buffer.Valid()
    }

    /** The frames still to come. */
    ghost function Remaining(): seq<Decoded>
      requires Valid()
      reads this, codec, buffer, buffer.store
    {
      if ended then []
      else if atEof then EofFrames(codec.lim, codec.State(buffer))
      else Frames(codec.lim, codec.State(buffer), pending)
    }

    /** The next frame, or none once the stream has ended or ended. */
    method Next() returns (d: Option<Decoded>)
      requires Valid()
      modifies this, codec, buffer, buffer.store
      ensures Valid() && (buffer.store == old(buffer.store) || fresh(buffer.store))
      ensures match d
              case None => old(Remaining()) == [] && Remaining() == []
              case Some(f) => old(Remaining()) == [f] + Remaining() && !f.NoFrame?
    {
      if ended {
        return None;
      }
      while !atEof
        invariant Valid() && !ended && (buffer.store == old(buffer.store) || fresh(buffer.store))
        invariant Remaining() == old(Remaining())
        decreases |pending|, !atEof
      {
        var f := codec.Decode(buffer);
        match f
        case Frame(_) => return Some(f);
        case Overflow =>
          ended := true;
          return Some(f);
        case NoFrame =>
          if pending == [] {
            atEof := true;
          } else {
            buffer.Extend(pending[0]);
            pending := pending[1..];
          }
      }
      d := NextAtEof();
    }

    method NextAtEof() returns (d: Option<Decoded>)
      requires Valid() && atEof && !ended
      modifies this`ended, codec, buffer, buffer.store
      ensures Valid() && buffer.store == old(buffer.store)
      ensures match d
              case None => old(Remaining()) == [] && Remaining() == []
              case Some(f) => old(Remaining()) == [f] + Remaining() && !f.NoFrame?
    {
      var f := codec.DecodeEof(buffer);
      if f.Frame? {
        return Some(f);
      }
      ended := true;
      return if f.Overflow? then Some(f) else None;
    }
  }

  /** The unread suffix is the original input, the finished prefix is the output so far. */
  ghost predicate Cursors(a: array<u8>, base: nat, s: seq<u8>, out: seq<u8>, read: nat, write: nat)
    reads a
  {
    && write == |out| && write <= read <= |s| && base + |s| <= a.Length
    && (forall j :: base + read <= j < base + |s| ==> a[j] == s[j - base])
    && (forall j :: base <= j < base + write ==> a[j] == out[j - base])
  }

  /** What is left when the input ends in a cut-off command, or ends cleanly. */
  lemma CutOff(out: seq<u8>, rest: seq<u8>, f: Flags)
    requires rest != [] ==> !f.inSub && IsIncomplete(rest)
    ensures Prepend(out, Strip(f, rest)) == Stripped(out, rest, f)
  {
    assert out + [] == out;
  }

  lemma SliceIs(a: array<u8>, from: nat, n: nat, out: seq<u8>, tail: seq<u8>)
    requires n == |out| + |tail| && from + n <= a.Length
    requires forall j :: from <= j < from + |out| ==> a[j] == out[j - from]
    requires forall j :: from + |out| <= j < from + n ==> a[j] == tail[j - from - |out|]
    ensures a[from..from + n] == out + tail
  {
  }

  /** The first bytes of a suffix, and the suffixes after them. */
  lemma Suffix(s: seq<u8>, i: nat)
    requires i < |s|
    ensures var rest := s[i..];
            && rest[0] == s[i] && rest[1..] == s[i + 1..]
            && (i + 1 < |s| ==> rest[1] == s[i + 1] && rest[2..] == s[i + 2..])
            && (i + 2 < |s| ==> rest[3..] == s[i + 3..])
  {
  }

  lemma StepByte(out: seq<u8>, s: seq<u8>, i: nat, n: nat, f: Flags)
    requires !f.inSub && i + n <= |s|
    requires (n == 1 && s[i] != IAC) || (n == 2 && s[i] == IAC && s[i + 1] == IAC)
    ensures Prepend(out, Strip(f, s[i..])) == Prepend(out + [s[i]], Strip(f, s[i + n..]))
  {
    Suffix(s, i);
    PrependTwice(out, [s[i]], Strip(f, s[i + n..]));
  }
}
