/** From bytes to transcript: the codec and the connection composed. */
module EndToEnd {
  import opened Transducer
  import opened Wrappers
  import opened LineSplitter
  import opened Decoder
  import opened Resync
  import opened Wire
  import opened Codec
  import opened Chunking
  import opened Text
  import opened Sessions
  import opened Connections
  import opened RateLimiter
  import opened Handler

  /** Exactly the conditions under which these reads decode to the lines of their stream. */
  predicate WellRead(lim: Limits, chunks: seq<seq<u8>>) {
    Plain(Flatten(chunks)) && BoundariesOk(lim, [], chunks)
  }

  /** The connection a byte stream leads to, by the one-pass specification of the codec. */
  function StreamConn(cfg: Config, text: seq<u8> -> string, stream: seq<u8>, env: nat -> TurnEnv): Conn {
    Connections.Run(cfg, TurnsOf(text, StreamFrames(NORMAL, stream), env))
  }

  /** The connection these reads lead to. */
  function ReadsConn(cfg: Config, lim: Limits, text: seq<u8> -> string, chunks: seq<seq<u8>>, env: nat -> TurnEnv): Conn {
    Connections.Run(cfg, TurnsOf(text, Frames(lim, FRESH, chunks), env))
  }

  /**
    End-to-end chunking independence: for any environment, the transcript, the store calls and
    the final state are those of the stream, and so the same for any two ways of reading it.
   */
  lemma TranscriptIgnoresReadBoundaries(cfg: Config, lim: Limits, text: seq<u8> -> string,
                                        one: seq<seq<u8>>, other: seq<seq<u8>>, env: nat -> TurnEnv)
    requires Flatten(one) == Flatten(other) && WellRead(lim, one) && WellRead(lim, other)
    ensures ReadsConn(cfg, lim, text, one, env) == StreamConn(cfg, text, Flatten(one), env)
    ensures ReadsConn(cfg, lim, text, one, env) == ReadsConn(cfg, lim, text, other, env)
  {
    PlainStreamDecodes(lim, one);
    PlainStreamDecodes(lim, other);
  }

  /** A login over lines: see `Connections.LoginRun`. */
  lemma LoginOverLines(cfg: Config, text: seq<u8> -> string, lines: seq<seq<u8>>, env: nat -> TurnEnv, account: Account, n: nat)
    requires |lines| >= 3 && forall i :: 0 <= i < 3 ==> AllIsWell(env(i).env)
    requires Credential(Trim(text(lines[0]))) && Credential(Trim(text(lines[1])))
    requires env(1).env.verify(Trim(text(lines[0])), Trim(text(lines[1]))) == Found(account)
    requires 1 <= n <= |cfg.worlds| && ParseUsize(Trim(text(lines[2]))) == Some(n)
    ensures Connections.Run(cfg, TurnsOf(text, LineFrames(lines), env)) ==
            Conn(WorldSelection(account), 0, 3, LoginTranscript(cfg, account, cfg.worlds[n - 1]),
                 [Call(Trim(text(lines[0])), Trim(text(lines[1])), Found(account))], Some(ByDisconnect))
  {
    LoginRun(cfg, TurnsOf(text, LineFrames(lines), env), text(lines[0]), text(lines[1]), text(lines[2]), account, n);
  }

  /**
    A login over the wire: three plain lines, sent with any terminators and read in any way that
    neither overflows the buffer nor parts CR from LF, take a client with confirmed credentials
    to the world whose number it sent, whatever plain lines follow.
   */
  lemma LoginReachesTheWorld(cfg: Config, lim: Limits, slack: nat, text: seq<u8> -> string, sent: seq<Sent>, rest: seq<u8>,
                             chunks: seq<seq<u8>>, env: nat -> TurnEnv, account: Account, n: nat)
    requires |sent| >= 3 && WellSent(sent, rest) && Flatten(chunks) == Join(sent, rest) && TextReads(lim, slack, [], chunks)
    requires (forall l :: l in LinesOf(sent) ==> |l| <= lim.maxLine) && |rest| <= lim.maxLine
    requires forall i :: 0 <= i < 3 ==> AllIsWell(env(i).env)
    requires Credential(Trim(text(sent[0].line))) && Credential(Trim(text(sent[1].line)))
    requires env(1).env.verify(Trim(text(sent[0].line)), Trim(text(sent[1].line))) == Found(account)
    requires 1 <= n <= |cfg.worlds| && ParseUsize(Trim(text(sent[2].line))) == Some(n)
    ensures ReadsConn(cfg, lim, text, chunks, env) ==
            Conn(WorldSelection(account), 0, 3, LoginTranscript(cfg, account, cfg.worlds[n - 1]),
                 [Call(Trim(text(sent[0].line)), Trim(text(sent[1].line)), Found(account))], Some(ByDisconnect))
  {
    LinesArriveAsSent(lim, slack, sent, rest, chunks);
    LinesOfAt(sent);
    LoginOverLines(cfg, text, LinesOf(sent) + if rest == [] then [] else [rest], env, account, n);
  }

  /**
    A connection served by the objects themselves: reader, codec, session and limiter. Gate,
    transcript, store calls and limiter are those of the frames of its reads, and so of its
    stream when the reads decode to the stream's lines.
   */
  method Serve(cfg: Config, lim: Limits, chunks: seq<seq<u8>>, text: seq<u8> -> string, ip: IpAddr,
               limiter: AuthRateLimiter, gateAt: Reading, writeOk: bool, env: nat -> TurnEnv)
    returns (state: SessionState, out: seq<Output>, ghost end: Outcome)
    modifies limiter
    ensures state == end.conn.state && out == end.conn.out && end.conn.exit.Some?
    ensures Served(limiter.settings, old(limiter.failures), limiter.failures, ip, gateAt, writeOk,
                   cfg, TurnsOf(text, Frames(lim, FRESH, chunks), env), env, end)
    ensures WellRead(lim, chunks) ==>
              Served(limiter.settings, old(limiter.failures), limiter.failures, ip, gateAt, writeOk,
                     cfg, TurnsOf(text, StreamFrames(NORMAL, Flatten(chunks)), env), env, end)
  {
    var codec := new TelnetLineCodec(lim.maxLine, lim.maxBuffer);
    var frames := new FramedRead(codec, chunks);
    var conn := new Connection(cfg);
    end := conn.Handle(frames, text, ip, limiter, gateAt, writeOk, env);
    state, out := conn.session.state, conn.out;
    assert end.conn.state == state;
    if WellRead(lim, chunks) {
      PlainStreamDecodes(lim, chunks);
    }
  }
}
