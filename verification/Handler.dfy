/**
  The connection loop as it runs: it pulls frames, drives the session object, writes output and
  updates the shared rate limiter, and is proved to follow the step relation of Connections.
 */
module Handler {
  import opened Wrappers
  import opened Transducer
  import opened Decoder
  import opened Codec
  import opened Chunking
  import opened Sessions
  import opened Connections
  import opened RateLimiter

  /** What the environment decides in one turn, and the clock readings the limiter takes in it. */
  datatype TurnEnv = TurnEnv(env: Env, at: Reading, pushAt: nat)

  /** The line's text is its bytes decoded by `text`. */
  function InputOf(text: seq<u8> -> string, frame: Decoded): Input {
    match frame
    case Frame(Line(bytes)) => GotLine(text(bytes))
    case Frame(LineTooLong) => GotTooLong
    case Overflow => GotOverflow
    case NoFrame => GotEof
  }

  /** The turns of a connection that receives these frames and then the end of the stream. */
  function TurnsOf(text: seq<u8> -> string, frames: seq<Decoded>, env: nat -> TurnEnv): (turns: seq<Turn>)
    ensures |turns| == |frames| + 1
  {
    seq(|frames| + 1, i requires 0 <= i <= |frames| =>
      Turn(if i < |frames| then InputOf(text, frames[i]) else GotEof, env(i).env))
  }

  /** What each frame is to the connection, and that end of input follows the last one. */
  lemma TurnsTable(text: seq<u8> -> string, frames: seq<Decoded>, env: nat -> TurnEnv, i: nat)
    ensures TurnsOf(text, frames, env)[|frames|] == Turn(GotEof, env(|frames|).env)
    ensures i < |frames| ==>
              var turn := TurnsOf(text, frames, env)[i];
              && turn.env == env(i).env
              && (forall bytes :: frames[i] == Frame(Line(bytes)) ==> turn.input == GotLine(text(bytes)))
              && (frames[i] == Frame(LineTooLong) ==> turn.input == GotTooLong)
              && (frames[i] == Overflow ==> turn.input == GotOverflow)
  {
  }

  /** The limiter's map after the effect of one turn. */
  function Applied(s: Settings, m: Failures, ip: IpAddr, effect: Effect, env: TurnEnv, victim: Option<IpAddr>): Failures {
    match effect
    case NoEffect => m
    case ResetsIp => m - {ip}
    case RecordsFailure => Recorded(s, m, ip, env.at, env.pushAt, victim)
  }

  /** An eviction in that turn takes an oldest entry. */
  predicate VictimOk(s: Settings, m: Failures, ip: IpAddr, effect: Effect, victim: Option<IpAddr>) {
    effect.RecordsFailure? && ip !in m && |m| >= s.maxEntries ==> IsOldest(m, victim)
  }

  /** A step's result is the connection's new value, and its effect took the limiter's map from `m` to `m'`. */
  predicate Follows(r: (Conn, Effect), c: Conn, s: Settings, m: Failures, m': Failures, ip: IpAddr, env: TurnEnv,
                    victim: Option<IpAddr>) {
    r.0 == c && m' == Applied(s, m, ip, r.1, env, victim) && VictimOk(s, m, ip, r.1, victim)
  }

  /** The limiter's map after the effects of all turns, given the evictions made. */
  function LimiterRun(s: Settings, m: Failures, ip: IpAddr, cfg: Config, turns: seq<Turn>, env: nat -> TurnEnv,
                      victims: seq<Option<IpAddr>>): Failures
    requires |victims| == |turns|
    decreases |turns|
  {
    if turns == [] then m
    else
      var k := |turns| - 1;
      Applied(s, LimiterRun(s, m, ip, cfg, turns[..k], env, victims[..k]), ip,
              Step(cfg, Run(cfg, turns[..k]), turns[k]).1, env(k), victims[k])
  }

  predicate VictimsOk(s: Settings, m: Failures, ip: IpAddr, cfg: Config, turns: seq<Turn>, env: nat -> TurnEnv,
                      victims: seq<Option<IpAddr>>)
    requires |victims| == |turns|
    decreases |turns|
  {
    turns == [] ||
    var k := |turns| - 1;
    && VictimsOk(s, m, ip, cfg, turns[..k], env, victims[..k])
    && VictimOk(s, LimiterRun(s, m, ip, cfg, turns[..k], env, victims[..k]), ip,
                Step(cfg, Run(cfg, turns[..k]), turns[k]).1, victims[k])
  }

  /** The map after a turn with this answer, if it had any: see `AppliedByAnswer`. */
  ghost predicate ToldMap(s: Settings, m: Failures, m': Failures, ip: IpAddr, pushAt: nat, answer: Option<Answer>) {
    match answer
    case None => m' == m
    case Some(StoreError) => m' == m
    case Some(Found(_)) => ip !in m' && forall other :: other in m && other != ip ==> other in m' && m'[other] == m[other]
    case Some(NotFound) => LatestFailure(s, m, m', ip, pushAt)
  }

  lemma AppliedTable(s: Settings, m: Failures, ip: IpAddr, env: TurnEnv, victim: Option<IpAddr>, answer: Option<Answer>)
    ensures var effect := match answer
                          case None => NoEffect
                          case Some(StoreError) => NoEffect
                          case Some(Found(_)) => ResetsIp
                          case Some(NotFound) => RecordsFailure;
            ToldMap(s, m, Applied(s, m, ip, effect, env, victim), ip, env.pushAt, answer)
  {
    RecordKeeps(s, m, ip, env.at, env.pushAt, victim);
  }

  /** The answer a turn gets from the store, if it asks: the one call that `d` has more than `c`. */
  function NewAnswer(c: Conn, d: Conn): Option<Answer> {
    if |d.calls| > |c.calls| then Some(d.calls[|c.calls|].answer) else None
  }

  /**
    What a turn does to the limiter's map, told from the store's answers alone: a refused call
    is recorded as the latest failure of the IP, a successful one makes the map forget it, and
    any other turn changes nothing.
   */
  lemma AppliedByAnswer(cfg: Config, c: Conn, turn: Turn, s: Settings, m: Failures, ip: IpAddr, env: TurnEnv, victim: Option<IpAddr>)
    ensures var (d, effect) := Step(cfg, c, turn);
            && |c.calls| <= |d.calls| <= |c.calls| + 1 && d.calls[..|c.calls|] == c.calls
            && ToldMap(s, m, Applied(s, m, ip, effect, env, victim), ip, env.pushAt, NewAnswer(c, d))
  {
    EffectIsTheAnswer(cfg, c, turn);
    AppliedTable(s, m, ip, env, victim, NewAnswer(c, Step(cfg, c, turn).0));
  }

  /** What a connection with these calls has left of its IP: nothing new, no trace, or its last failure. */
  predicate Leaves(m: Failures, m': Failures, ip: IpAddr, calls: seq<Call>, env: nat -> TurnEnv, k: nat) {
    if calls == [] then m' == m
    else match calls[|calls| - 1].answer
         case Found(_) => ip !in m'
         case NotFound => ip in m' && m'[ip] != [] && exists i :: 0 <= i < k && Last(m'[ip]) == env(i).pushAt
         case StoreError => |calls| == 1 ==> m' == m
  }

  lemma LeavesStep(s: Settings, m: Failures, before: Failures, m': Failures, ip: IpAddr, calls: seq<Call>, calls': seq<Call>,
                   env: nat -> TurnEnv, k: nat)
    requires Leaves(m, before, ip, calls, env, k)
    requires |calls| <= |calls'| <= |calls| + 1 && calls'[..|calls|] == calls
    requires ToldMap(s, before, m', ip, env(k).pushAt, if |calls'| > |calls| then Some(calls'[|calls|].answer) else None)
    ensures Leaves(m, m', ip, calls', env, k + 1)
  {
    if |calls'| == |calls| {
      assert calls' == calls;
    }
  }

  /** What a whole connection leaves in the limiter, told from its calls to the store. */
  lemma {:induction false} RunTellsLimiter(s: Settings, m: Failures, ip: IpAddr, cfg: Config, turns: seq<Turn>, env: nat -> TurnEnv,
                                           victims: seq<Option<IpAddr>>)
    requires |victims| == |turns|
    ensures Leaves(m, LimiterRun(s, m, ip, cfg, turns, env, victims), ip, Run(cfg, turns).calls, env, |turns|)
    decreases |turns|
  {
    if turns != [] {
      var k := |turns| - 1;
      var c := Run(cfg, turns[..k]);
      var before := LimiterRun(s, m, ip, cfg, turns[..k], env, victims[..k]);
      RunTellsLimiter(s, m, ip, cfg, turns[..k], env, victims[..k]);
      AppliedByAnswer(cfg, c, turns[k], s, before, ip, env(k), victims[k]);
      LeavesStep(s, m, before, LimiterRun(s, m, ip, cfg, turns, env, victims), ip, c.calls, Run(cfg, turns).calls, env, k);
    }
  }

  /** How a whole connection ended: its last value, how many turns it took, and whom the limiter evicted. */
  datatype Outcome = Outcome(conn: Conn, taken: nat, victims: seq<Option<IpAddr>>)

  /**
    The gate was asked once, then the turns were taken up to the one that closed the connection,
    and the limiter's map went from `m` to `m'` by the gate and the effects of exactly those turns.
   */
  predicate Served(s: Settings, m: Failures, m': Failures, ip: IpAddr, gateAt: Reading, writeOk: bool,
                   cfg: Config, turns: seq<Turn>, env: nat -> TurnEnv, end: Outcome) {
    var gate := Checked(s, m, ip, gateAt);
    var refused := gate.1 || !writeOk;
    && end.taken <= |turns| && |end.victims| == end.taken
    && end.conn == (if refused then Connect(gate.1, writeOk) else Run(cfg, turns))
    && (if refused then end.taken == 0 else Run(cfg, turns[..end.taken]).exit.Some?)
    && m' == LimiterRun(s, gate.0, ip, cfg, turns[..end.taken], env, end.victims)
    && VictimsOk(s, gate.0, ip, cfg, turns[..end.taken], env, end.victims)
  }

  /** One connection's loop variables, its session object and its transcript. */
  class Connection {
    const cfg: Config
    const session: Session
    var authFailures: nat
    var lineCount: nat
    var out: seq<Output>
    var exit: Option<Exit>
    ghost var calls: seq<Call>

    constructor (cfg: Config)
      ensures this.cfg == cfg && fresh(session) && Valid()
      ensures Value() == Conn(INITIAL, 0, 0, [], [], None)
    {
      this.cfg := cfg;
      session := new Session(cfg.worlds);
      authFailures, lineCount, out, exit, calls := 0, 0, [], None, [];
    }

    ghost predicate Valid() {
      session.worlds == cfg.worlds
    }

    ghost function Value(): Conn
      reads this, session
    {
      Conn(session.state, authFailures, lineCount, out, calls, exit)
    }

    method WriteRaw(output: seq<Output>, ok: bool)
      modifies this`out
      ensures out == if ok then old(out) + output else old(out)
    {
      if ok {
        out := out + output;
      }
    }

    /** A write that ends the connection when it fails. */
    method WriteOrExit(output: seq<Output>, ok: bool)
      requires exit.None?
      modifies this`out, this`exit
      ensures Value() == Write(old(Value()), ok, output)
    {
      WriteRaw(output, ok);
      if !ok {
        exit := Some(ByWriteFailure);
      }
    }

    /** A last write, whose failure is ignored, and the end of the loop. */
    method CloseWith(output: seq<Output>, ok: bool, reason: Exit)
      modifies this`out, this`exit
      ensures Value() == Close(old(Value()), ok, output, reason)
    {
      WriteRaw(output, ok);
      exit := Some(reason);
    }

    /** Write a transition's output, then enter its state. */
    method AdvanceTo(next: SessionState, output: seq<Output>, ok: bool)
      requires Valid() && exit.None?
      modifies this`out, this`exit, session
      ensures Value() == Enter(Write(old(Value()), ok, output), next)
    {
      WriteOrExit(output, ok);
      if exit.None? {
        session.Apply(next);
      }
    }

    /** A line of input: the session's transition, its writes, the store and the limiter. */
    method ReceiveLine(text: string, ip: IpAddr, limiter: AuthRateLimiter, env: TurnEnv) returns (ghost victim: Option<IpAddr>)
      requires Valid() && exit.None?
      modifies this, session, limiter
      ensures Follows(HandleLine(cfg, old(Value()), text, env.env), Value(), limiter.settings,
                      old(limiter.failures), limiter.failures, ip, env, victim)
    {
      lineCount := lineCount + 1;
      var t := HandleInput(cfg.worlds, session.state, text);
      assert HandleLine(cfg, old(Value()), text, env.env) == HandleTransition(cfg, Value(), t, env.env);
      victim := CarryOut(t, ip, limiter, env);
    }

    /** Carry out what the session made of a line. */
    method CarryOut(t: Transition, ip: IpAddr, limiter: AuthRateLimiter, env: TurnEnv) returns (ghost victim: Option<IpAddr>)
      requires Valid() && exit.None?
      modifies this, session, limiter
      ensures Follows(HandleTransition(cfg, old(Value()), t, env.env), Value(), limiter.settings,
                      old(limiter.failures), limiter.failures, ip, env, victim)
    {
      victim := None;
      match t
      case Stay(output) =>
        WriteOrExit(Texts(output), env.env.firstWriteOk);
      case Advance(next, output) =>
        AdvanceTo(next, EchoPrefix(next) + Texts(output), env.env.firstWriteOk);
      case AuthPending(username, password) =>
        victim := Verify(username, password, ip, limiter, env);
      case Disconnect(goodbye) =>
        SayGoodbye(goodbye, env.env);
    }

    method SayGoodbye(goodbye: seq<Message>, env: Env)
      modifies this`out, this`exit
      ensures Value() == Leave(old(Value()), env, goodbye)
    {
      if IsPasswordState(session.state) {
        WriteRaw([WontEcho], env.firstWriteOk);
      }
      CloseWith(Texts(goodbye), env.secondWriteOk, ByDisconnect);
    }

    /** A complete pair of credentials: ask the store, tell the limiter, finish or close. */
    method Verify(username: string, password: string, ip: IpAddr, limiter: AuthRateLimiter, env: TurnEnv)
      returns (ghost victim: Option<IpAddr>)
      requires Valid() && exit.None?
      modifies this, session, limiter
      ensures Follows(Authenticate(cfg, old(Value()), username, password, env.env), Value(), limiter.settings,
                      old(limiter.failures), limiter.failures, ip, env, victim)
    {
      victim := None;
      WriteOrExit([WontEcho], env.env.firstWriteOk);
      if exit.Some? {
        return;
      }
      var answer := env.env.verify(username, password);
      calls := calls + [Call(username, password, answer)];
      victim := TakeAnswer(answer, ip, limiter, env);
    }

    /** The store's answer: tell the limiter, finish or close. */
    method TakeAnswer(answer: Answer, ip: IpAddr, limiter: AuthRateLimiter, env: TurnEnv)
      returns (ghost victim: Option<IpAddr>)
      requires Valid() && exit.None?
      modifies this, session, limiter
      ensures Follows(Answered(cfg, old(Value()), answer, env.env.secondWriteOk), Value(), limiter.settings,
                      old(limiter.failures), limiter.failures, ip, env, victim)
    {
      victim := None;
      match answer {
        case StoreError =>
          CloseWith(Texts([InternalError]), env.env.secondWriteOk, ByStoreError);
        case Found(account) =>
          limiter.Reset(ip);
          Complete(Some(account), env.env.secondWriteOk);
        case NotFound =>
          authFailures := authFailures + 1;
          victim := limiter.RecordFailure(ip, env.at, env.pushAt);
          if authFailures >= cfg.maxLoginAttempts {
            CloseWith(Texts([MaxRetries]), env.env.secondWriteOk, ByRetryLimit);
          } else {
            Complete(None, env.env.secondWriteOk);
          }
      }
    }

    /** The session's answer to the outcome of an attempt. */
    method Complete(result: Option<Account>, ok: bool)
      requires Valid() && exit.None?
      modifies this`out, this`exit, session
      ensures Value() == FinishAuth(cfg, old(Value()), ok, result)
    {
      var completion := session.FinishAuth(result);
      AdvanceTo(completion.next, Texts(completion.output), ok);
    }

    /** One turn of the loop: shutdown first, then whatever the reader hands out. */
    method TakeTurn(frames: FramedRead, text: seq<u8> -> string, ip: IpAddr, limiter: AuthRateLimiter, env: TurnEnv, ghost turn: Turn)
      returns (ghost victim: Option<IpAddr>)
      requires Valid() && exit.None? && frames.Valid() && turn.env == env.env
      requires turn.input == if frames.Remaining() == [] then GotEof else InputOf(text, frames.Remaining()[0])
      modifies this, session, limiter, frames, frames.codec, frames.buffer, frames.buffer.store
      ensures frames.Valid() && (frames.buffer.store == old(frames.buffer.store) || fresh(frames.buffer.store))
      ensures Follows(Step(cfg, old(Value()), turn), Value(), limiter.settings,
                      old(limiter.failures), limiter.failures, ip, env, victim)
      ensures exit.None? ==> old(frames.Remaining()) != [] && frames.Remaining() == old(frames.Remaining())[1..]
    {
      victim := None;
      if env.env.shutdown {
        CloseWith(Texts([ShutdownNotice]), env.env.firstWriteOk, ByShutdown);
        return;
      }
      var next := frames.Next();
      match next
      case None =>
        exit := Some(ByEof);
      case Some(Frame(Line(bytes))) =>
        victim := ReceiveLine(text(bytes), ip, limiter, env);
      case Some(Frame(LineTooLong)) =>
        WriteOrExit(Texts([LineTooLongNotice]), env.env.firstWriteOk);
      case Some(Overflow) =>
        CloseWith(Texts([BufferOverflowNotice]), env.env.firstWriteOk, ByOverflow);
    }

    /** The connect-time gate, then the banner. */
    method Greet(ip: IpAddr, limiter: AuthRateLimiter, gateAt: Reading, writeOk: bool)
      requires Valid() && Value() == Conn(INITIAL, 0, 0, [], [], None)
      modifies this, limiter
      ensures var gate := Checked(limiter.settings, old(limiter.failures), ip, gateAt);
              limiter.failures == gate.0 && Value() == Connect(gate.1, writeOk)
    {
      var throttled := limiter.IsThrottled(ip, gateAt);
      assert forall o: seq<Output> :: [] + o == o;
      if throttled {
        WriteRaw(Texts([RateLimited]), writeOk);
        exit := Some(ByThrottle);
      } else {
        WriteRaw(Texts([Banner, UsernamePrompt]), writeOk);
        if !writeOk {
          exit := Some(ByWriteFailure);
        }
      }
    }

    /**
      The whole connection. It ends as the step relation says for the frames the reader will
      yield, and leaves the limiter's map as the effects of those turns make it.
     */
    method Handle(frames: FramedRead, text: seq<u8> -> string, ip: IpAddr, limiter: AuthRateLimiter,
                  gateAt: Reading, writeOk: bool, env: nat -> TurnEnv)
      returns (ghost end: Outcome)
      requires Valid() && Value() == Conn(INITIAL, 0, 0, [], [], None) && frames.Valid()
      modifies this, session, limiter, frames, frames.codec, frames.buffer, frames.buffer.store
      ensures exit.Some? && end.conn == Value()
      ensures Served(limiter.settings, old(limiter.failures), limiter.failures, ip, gateAt, writeOk,
                     cfg, TurnsOf(text, old(frames.Remaining()), env), env, end)
    {
      ghost var taken: nat, victims := 0, [];
      Greet(ip, limiter, gateAt, writeOk);
      if exit.None? {
        taken, victims := Loop(frames, text, ip, limiter, env);
      }
      end := Outcome(Value(), taken, victims);
    }

    /** Turn after turn until the connection closes. */
    method Loop(frames: FramedRead, text: seq<u8> -> string, ip: IpAddr, limiter: AuthRateLimiter, env: nat -> TurnEnv)
      returns (ghost taken: nat, ghost victims: seq<Option<IpAddr>>)
      requires Valid() && Value() == GREETED && frames.Valid()
      modifies this, session, limiter, frames, frames.codec, frames.buffer, frames.buffer.store
      ensures exit.Some?
      ensures var turns := TurnsOf(text, old(frames.Remaining()), env);
              && taken <= |turns| && |victims| == taken
              && Value() == Run(cfg, turns) == Run(cfg, turns[..taken])
              && limiter.failures == LimiterRun(limiter.settings, old(limiter.failures), ip, cfg, turns[..taken], env, victims)
              && VictimsOk(limiter.settings, old(limiter.failures), ip, cfg, turns[..taken], env, victims)
    {
      ghost var all := frames.Remaining();
      ghost var turns := TurnsOf(text, all, env);
      ghost var m := limiter.failures;
      victims := [];
      var k := 0;
      while exit.None?
        invariant k <= |turns| && k == |victims|
        invariant frames.Valid() && (frames.buffer.store == old(frames.buffer.store) || fresh(frames.buffer.store))
        invariant Value() == Run(cfg, turns[..k])
        invariant exit.None? ==> k <= |all| && frames.Remaining() == all[k..]
        invariant limiter.failures == LimiterRun(limiter.settings, m, ip, cfg, turns[..k], env, victims)
        invariant VictimsOk(limiter.settings, m, ip, cfg, turns[..k], env, victims)
        decreases |turns| - k, exit.None?
      {
        RunExtend(cfg, turns, k);
        TurnAt(text, all, env, k);
        ghost var victim := TakeTurn(frames, text, ip, limiter, env(k), turns[k]);
        LimiterRunExtend(limiter.settings, m, ip, cfg, turns, k, env, victims, victim);
        victims := victims + [victim];
        k := k + 1;
      }
      taken := k;
      ClosedForGood(cfg, turns, k);
    }
  }

  lemma TurnAt(text: seq<u8> -> string, frames: seq<Decoded>, env: nat -> TurnEnv, k: nat)
    requires k <= |frames|
    ensures var turn := TurnsOf(text, frames, env)[k];
            turn.env == env(k).env && turn.input == if frames[k..] == [] then GotEof else InputOf(text, frames[k..][0])
    ensures k < |frames| ==> frames[k..][1..] == frames[k + 1..]
  {
  }

  lemma LimiterRunExtend(s: Settings, m: Failures, ip: IpAddr, cfg: Config, turns: seq<Turn>, k: nat, env: nat -> TurnEnv,
                         victims: seq<Option<IpAddr>>, victim: Option<IpAddr>)
    requires k < |turns| && |victims| == k
    ensures var before := LimiterRun(s, m, ip, cfg, turns[..k], env, victims);
            var effect := Step(cfg, Run(cfg, turns[..k]), turns[k]).1;
            && LimiterRun(s, m, ip, cfg, turns[..k + 1], env, victims + [victim]) ==
               Applied(s, before, ip, effect, env(k), victim)
            && (VictimsOk(s, m, ip, cfg, turns[..k + 1], env, victims + [victim]) <==>
                VictimsOk(s, m, ip, cfg, turns[..k], env, victims) && VictimOk(s, before, ip, effect, victim))
  {
    assert turns[..k + 1][..k] == turns[..k];
    assert (victims + [victim])[..k] == victims;
  }
}
