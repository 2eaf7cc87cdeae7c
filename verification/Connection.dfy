/**
  One connection as a step relation: the loop that feeds decoded input to the session, calls
  the account store, counts failures, negotiates echo and decides when to close.
 */
module Connections {
  import opened Wrappers
  import opened Text
  import opened Registry
  import opened Sessions

  /** What goes to the client: the two echo negotiations and the text messages. */
  datatype Output = WillEcho | WontEcho | Text(message: Message)

  /** The account store's answer to a credential check. */
  datatype Answer = Found(account: Account) | NotFound | StoreError

  datatype Call = Call(username: string, password: string, answer: Answer)

  datatype Input = GotLine(text: string) | GotTooLong | GotOverflow | GotIoError | GotEof

  datatype Exit =
    | ByThrottle | ByShutdown | ByEof | ByIoError | ByOverflow | ByDisconnect
    | ByRetryLimit | ByStoreError | ByWriteFailure

  /** What a turn of the loop does to the shared rate limiter. */
  datatype Effect = NoEffect | ResetsIp | RecordsFailure

  /** What the environment decides in one turn: shutdown, the store, and which of its writes succeed. */
  datatype Env = Env(shutdown: bool, verify: (string, string) -> Answer, firstWriteOk: bool, secondWriteOk: bool)

  datatype Turn = Turn(input: Input, env: Env)

  datatype Config = Config(worlds: seq<World>, maxLoginAttempts: nat)

  /** The loop's variables, the output so far, the log of calls to the store, and how it ended. */
  datatype Conn = Conn(state: SessionState, authFailures: nat, lineCount: nat,
                       out: seq<Output>, calls: seq<Call>, exit: Option<Exit>)

  function Texts(messages: seq<Message>): seq<Output> {
    seq(|messages|, i requires 0 <= i < |messages| => Text(messages[i]))
  }

  const GREETED: Conn := Conn(INITIAL, 0, 0, Texts([Banner, UsernamePrompt]), [], None)

  /** The connect-time gate and the first write: the refusal, or the banner. */
  function Connect(throttled: bool, writeOk: bool): Conn {
    if throttled then Conn(INITIAL, 0, 0, if writeOk then Texts([RateLimited]) else [], [], Some(ByThrottle))
    else if writeOk then GREETED
    else Conn(INITIAL, 0, 0, [], [], Some(ByWriteFailure))
  }

  /** A write that ends the connection when it fails. */
  function Write(c: Conn, ok: bool, output: seq<Output>): Conn {
    if ok then c.(out := c.out + output) else c.(exit := Some(ByWriteFailure))
  }

  /** A last write, whose failure is ignored, before closing. */
  function Close(c: Conn, ok: bool, output: seq<Output>, exit: Exit): Conn {
    c.(out := if ok then c.out + output else c.out, exit := Some(exit))
  }

  function Enter(c: Conn, next: SessionState): Conn {
    if c.exit.None? then c.(state := next) else c
  }

  /** Echo negotiation in front of the output that enters a state. */
  function EchoPrefix(next: SessionState): seq<Output> {
    if IsPasswordState(next) then [WillEcho]
    else if next.WorldSelection? then [WontEcho]
    else []
  }

  function FinishAuth(cfg: Config, c: Conn, ok: bool, result: Option<Account>): Conn {
    match CompleteAuth(cfg.worlds, result)
    case Advance(next, output) => Enter(Write(c, ok, Texts(output)), next)
  }

  /** The call to the store, after restoring the client's echo. */
  function Asked(c: Conn, call: Call): Conn {
    c.(out := c.out + [WontEcho], calls := c.calls + [call])
  }

  /** What follows the store's answer. */
  function Answered(cfg: Config, c: Conn, answer: Answer, ok: bool): (Conn, Effect) {
    match answer
    case StoreError => (Close(c, ok, Texts([InternalError]), ByStoreError), NoEffect)
    case Found(account) => (FinishAuth(cfg, c, ok, Some(account)), ResetsIp)
    case NotFound =>
      var failed := c.(authFailures := c.authFailures + 1);
      if failed.authFailures >= cfg.maxLoginAttempts then (Close(failed, ok, Texts([MaxRetries]), ByRetryLimit), RecordsFailure)
      else (FinishAuth(cfg, failed, ok, None), RecordsFailure)
  }

  function Authenticate(cfg: Config, c: Conn, username: string, password: string, env: Env): (Conn, Effect) {
    if !env.firstWriteOk then (c.(exit := Some(ByWriteFailure)), NoEffect)
    else
      var answer := env.verify(username, password);
      Answered(cfg, Asked(c, Call(username, password, answer)), answer, env.secondWriteOk)
  }

  /** The goodbye, after restoring the client's echo if it is off. */
  function Leave(c: Conn, env: Env, goodbye: seq<Message>): Conn {
    var restored := if IsPasswordState(c.state) && env.firstWriteOk then c.(out := c.out + [WontEcho]) else c;
    Close(restored, env.secondWriteOk, Texts(goodbye), ByDisconnect)
  }

  /** Carrying out what the session made of a line. */
  function HandleTransition(cfg: Config, c: Conn, t: Transition, env: Env): (Conn, Effect) {
    match t
    case Stay(output) => (Write(c, env.firstWriteOk, Texts(output)), NoEffect)
    case Advance(next, output) => (Enter(Write(c, env.firstWriteOk, EchoPrefix(next) + Texts(output)), next), NoEffect)
    case AuthPending(username, password) => Authenticate(cfg, c, username, password, env)
    case Disconnect(goodbye) => (Leave(c, env, goodbye), NoEffect)
  }

  function HandleLine(cfg: Config, c: Conn, text: string, env: Env): (Conn, Effect) {
    HandleTransition(cfg, c.(lineCount := c.lineCount + 1), HandleInput(cfg.worlds, c.state, text), env)
  }

  /** One turn of the loop; shutdown takes precedence over input. */
  function Step(cfg: Config, c: Conn, turn: Turn): (Conn, Effect) {
    var env := turn.env;
    if c.exit.Some? then (c, NoEffect)
    else if env.shutdown then (Close(c, env.firstWriteOk, Texts([ShutdownNotice]), ByShutdown), NoEffect)
    else
      match turn.input
      case GotLine(text) => HandleLine(cfg, c, text, env)
      case GotTooLong => (Write(c, env.firstWriteOk, Texts([LineTooLongNotice])), NoEffect)
      case GotOverflow => (Close(c, env.firstWriteOk, Texts([BufferOverflowNotice]), ByOverflow), NoEffect)
      case GotIoError => (c.(exit := Some(ByIoError)), NoEffect)
      case GotEof => (c.(exit := Some(ByEof)), NoEffect)
  }

  /** The connection after some turns, from the banner on. */
  function Run(cfg: Config, turns: seq<Turn>): Conn {
    if turns == [] then GREETED else Step(cfg, Run(cfg, turns[..|turns| - 1]), turns[|turns| - 1]).0
  }

  lemma RunExtend(cfg: Config, turns: seq<Turn>, k: nat)
    requires k < |turns|
    ensures Run(cfg, turns[..k + 1]) == Step(cfg, Run(cfg, turns[..k]), turns[k]).0
  {
    assert turns[..k + 1][..k] == turns[..k];
  }

  /** A closed connection stays as it is. */
  lemma {:induction false} ClosedForGood(cfg: Config, turns: seq<Turn>, k: nat)
    requires k <= |turns| && Run(cfg, turns[..k]).exit.Some?
    ensures Run(cfg, turns) == Run(cfg, turns[..k])
    decreases |turns|
  {
    if k < |turns| {
      var before := turns[..|turns| - 1];
      assert before[..k] == turns[..k];
      ClosedForGood(cfg, before, k);
    } else {
      assert turns[..k] == turns;
    }
  }

  /** A turn that receives a line. */
  lemma LineStep(cfg: Config, c: Conn, turn: Turn)
    requires c.exit.None? && !turn.env.shutdown && turn.input.GotLine?
    ensures Step(cfg, c, turn) ==
            HandleTransition(cfg, c.(lineCount := c.lineCount + 1), HandleInput(cfg.worlds, c.state, turn.input.text), turn.env)
  {
  }

  /** Any other turn leaves the session and the attempts alone. */
  lemma OtherStep(cfg: Config, c: Conn, turn: Turn)
    requires c.exit.Some? || turn.env.shutdown || !turn.input.GotLine?
    ensures var (d, effect) := Step(cfg, c, turn);
            && effect.NoEffect? && d.state == c.state && d.calls == c.calls && d.authFailures == c.authFailures
            && (d.exit.None? ==> c.exit.None?)
  {
  }

  // ---------- Echo discipline ----------

  /** The echo negotiations in a transcript: true for WILL, false for WONT. */
  function EchoMarks(out: seq<Output>): seq<bool> {
    if out == [] then []
    else
      var marks := EchoMarks(out[..|out| - 1]);
      match out[|out| - 1]
      case WillEcho => marks + [true]
      case WontEcho => marks + [false]
      case Text(_) => marks
  }

  /** Whether the client's own echo is off after this transcript. */
  function Suppressed(out: seq<Output>): bool {
    var marks := EchoMarks(out);
    marks != [] && marks[|marks| - 1]
  }

  /** WILL, WONT, WILL, WONT, and so on. */
  predicate Alternates(marks: seq<bool>) {
    forall i :: 0 <= i < |marks| ==> marks[i] == (i % 2 == 0)
  }

  lemma {:induction false} MarksOfTexts(out: seq<Output>, messages: seq<Message>)
    ensures EchoMarks(out + Texts(messages)) == EchoMarks(out)
    decreases |messages|
  {
    var all := out + Texts(messages);
    if messages == [] {
      assert all == out;
    } else {
      var front := messages[..|messages| - 1];
      assert all[..|all| - 1] == out + Texts(front);
      MarksOfTexts(out, front);
    }
  }

  lemma MarksOfOne(out: seq<Output>, o: Output)
    ensures EchoMarks(out + [o]) == match o
                                    case WillEcho => EchoMarks(out) + [true]
                                    case WontEcho => EchoMarks(out) + [false]
                                    case Text(_) => EchoMarks(out)
  {
    assert (out + [o])[..|out|] == out;
  }

  lemma AlternatesNext(marks: seq<bool>, mark: bool)
    requires Alternates(marks) && mark != (marks != [] && marks[|marks| - 1])
    ensures Alternates(marks + [mark])
  {
  }

  /** Negotiations alternate, and while the loop runs echo is off exactly in the password state. */
  predicate EchoInv(c: Conn) {
    && Alternates(EchoMarks(c.out))
    && (c.exit.None? ==> (Suppressed(c.out) <==> IsPasswordState(c.state)))
  }

  /** Exits at which the code sends no negotiation. */
  predicate SilentExit(e: Exit) {
    e.ByShutdown? || e.ByEof? || e.ByIoError? || e.ByOverflow?
  }

  predicate WritesOk(turn: Turn) {
    turn.env.firstWriteOk && turn.env.secondWriteOk
  }

  /** At an exit, echo is left off exactly when a silent exit happened in the password state. */
  predicate EchoAtExit(c: Conn) {
    c.exit.Some? ==> (Suppressed(c.out) <==> IsPasswordState(c.state) && SilentExit(c.exit.value))
  }

  lemma WriteKeepsMarks(c: Conn, ok: bool, messages: seq<Message>)
    ensures EchoMarks(Write(c, ok, Texts(messages)).out) == EchoMarks(c.out)
  {
    MarksOfTexts(c.out, messages);
  }

  lemma CloseKeepsMarks(c: Conn, ok: bool, messages: seq<Message>, exit: Exit)
    ensures EchoMarks(Close(c, ok, Texts(messages), exit).out) == EchoMarks(c.out)
  {
    MarksOfTexts(c.out, messages);
  }

  /** Closing with the client's echo restored. */
  lemma EchoClose(c: Conn, ok: bool, messages: seq<Message>, exit: Exit)
    requires Alternates(EchoMarks(c.out)) && !Suppressed(c.out) && !SilentExit(exit)
    ensures var d := Close(c, ok, Texts(messages), exit); EchoInv(d) && EchoAtExit(d)
  {
    CloseKeepsMarks(c, ok, messages, exit);
  }

  /** Finishing an attempt with the client's echo restored. */
  lemma EchoFinish(cfg: Config, c: Conn, ok: bool, result: Option<Account>)
    requires Alternates(EchoMarks(c.out)) && !Suppressed(c.out) && c.exit.None?
    ensures var d := FinishAuth(cfg, c, ok, result); EchoInv(d) && (ok ==> EchoAtExit(d))
  {
    WriteKeepsMarks(c, ok, CompleteAuth(cfg.worlds, result).output);
  }

  lemma EchoAnswered(cfg: Config, c: Conn, answer: Answer, ok: bool)
    requires Alternates(EchoMarks(c.out)) && !Suppressed(c.out) && c.exit.None?
    ensures var d := Answered(cfg, c, answer, ok).0; EchoInv(d) && (ok ==> EchoAtExit(d))
  {
    match answer
    case StoreError => EchoClose(c, ok, [InternalError], ByStoreError);
    case Found(account) => EchoFinish(cfg, c, ok, Some(account));
    case NotFound =>
      var failed := c.(authFailures := c.authFailures + 1);
      if failed.authFailures >= cfg.maxLoginAttempts {
        EchoClose(failed, ok, [MaxRetries], ByRetryLimit);
      } else {
        EchoFinish(cfg, failed, ok, None);
      }
  }

  lemma EchoAuthenticate(cfg: Config, c: Conn, username: string, password: string, env: Env)
    requires EchoInv(c) && c.exit.None? && IsPasswordState(c.state)
    ensures var d := Authenticate(cfg, c, username, password, env).0;
            EchoInv(d) && (env.firstWriteOk && env.secondWriteOk ==> EchoAtExit(d))
  {
    if env.firstWriteOk {
      MarksOfOne(c.out, WontEcho);
      AlternatesNext(EchoMarks(c.out), false);
      var answer := env.verify(username, password);
      EchoAnswered(cfg, Asked(c, Call(username, password, answer)), answer, env.secondWriteOk);
    }
  }

  lemma EchoAdvance(c: Conn, username: string, ok: bool)
    requires EchoInv(c) && c.exit.None? && !IsPasswordState(c.state)
    ensures var next := Authenticating(Some(username));
            var d := Enter(Write(c, ok, EchoPrefix(next) + Texts([PasswordPrompt])), next);
            EchoInv(d) && (ok ==> EchoAtExit(d))
  {
    MarksOfOne(c.out, WillEcho);
    AlternatesNext(EchoMarks(c.out), true);
    MarksOfTexts(c.out + [WillEcho], [PasswordPrompt]);
    assert c.out + ([WillEcho] + Texts([PasswordPrompt])) == c.out + [WillEcho] + Texts([PasswordPrompt]);
  }

  lemma EchoDisconnect(c: Conn, env: Env, goodbye: seq<Message>)
    requires EchoInv(c) && c.exit.None?
    ensures var d := Leave(c, env, goodbye);
            EchoInv(d) && (env.firstWriteOk ==> EchoAtExit(d))
  {
    var restored := if IsPasswordState(c.state) && env.firstWriteOk then c.(out := c.out + [WontEcho]) else c;
    MarksOfOne(c.out, WontEcho);
    CloseKeepsMarks(restored, env.secondWriteOk, goodbye, ByDisconnect);
    if IsPasswordState(c.state) {
      AlternatesNext(EchoMarks(c.out), false);
    }
  }

  lemma EchoHandleLine(cfg: Config, c: Conn, text: string, env: Env)
    requires EchoInv(c) && c.exit.None?
    ensures var d := HandleLine(cfg, c, text, env).0;
            EchoInv(d) && (env.firstWriteOk && env.secondWriteOk ==> EchoAtExit(d))
  {
    var counted := c.(lineCount := c.lineCount + 1);
    AdvanceIsAcceptedUsername(cfg.worlds, c.state, text);
    PendingIsAcceptedPassword(cfg.worlds, c.state, text);
    match HandleInput(cfg.worlds, c.state, text)
    case Stay(output) => WriteKeepsMarks(counted, env.firstWriteOk, output);
    case Advance(next, output) => EchoAdvance(counted, Trim(text), env.firstWriteOk);
    case AuthPending(username, password) => EchoAuthenticate(cfg, counted, username, password, env);
    case Disconnect(goodbye) => EchoDisconnect(counted, env, goodbye);
  }

  lemma EchoStep(cfg: Config, c: Conn, turn: Turn)
    requires EchoInv(c) && EchoAtExit(c)
    ensures var d := Step(cfg, c, turn).0;
            EchoInv(d) && (WritesOk(turn) ==> EchoAtExit(d))
  {
    if c.exit.None? {
      if !turn.env.shutdown && turn.input.GotLine? {
        EchoHandleLine(cfg, c, turn.input.text, turn.env);
        LineStep(cfg, c, turn);
      } else {
        EchoNotice(cfg, c, turn);
      }
    }
  }

  lemma EchoNotice(cfg: Config, c: Conn, turn: Turn)
    requires EchoInv(c) && c.exit.None? && (turn.env.shutdown || !turn.input.GotLine?)
    ensures var d := Step(cfg, c, turn).0;
            EchoInv(d) && (WritesOk(turn) ==> EchoAtExit(d))
  {
    var ok := turn.env.firstWriteOk;
    if turn.env.shutdown {
      CloseKeepsMarks(c, ok, [ShutdownNotice], ByShutdown);
    } else if turn.input.GotOverflow? {
      CloseKeepsMarks(c, ok, [BufferOverflowNotice], ByOverflow);
    } else if turn.input.GotTooLong? {
      WriteKeepsMarks(c, ok, [LineTooLongNotice]);
    }
  }

  lemma GreetingMarks()
    ensures EchoMarks(GREETED.out) == []
  {
    MarksOfTexts([], [Banner, UsernamePrompt]);
    assert [] + Texts([Banner, UsernamePrompt]) == Texts([Banner, UsernamePrompt]);
  }

  /**
    Echo discipline, on every run with successful writes: WILL and WONT strictly alternate
    starting with WILL, at each loop head the client's echo is off exactly in the password
    state, and at the end it is left off exactly when shutdown, end of input, a read error or
    an overflow strikes in the password state.
   */
  lemma {:induction false} EchoDiscipline(cfg: Config, turns: seq<Turn>)
    requires forall i :: 0 <= i < |turns| ==> WritesOk(turns[i])
    ensures var c := Run(cfg, turns);
            && Alternates(EchoMarks(c.out))
            && (c.exit.None? ==> (Suppressed(c.out) <==> IsPasswordState(c.state)))
            && (c.exit.Some? ==> (Suppressed(c.out) <==> IsPasswordState(c.state) && SilentExit(c.exit.value)))
    decreases |turns|
  {
    if turns == [] {
      GreetingMarks();
    } else {
      EchoDiscipline(cfg, turns[..|turns| - 1]);
      EchoStep(cfg, Run(cfg, turns[..|turns| - 1]), turns[|turns| - 1]);
    }
  }

  // ---------- Prompts and last words ----------

  /** The prompt that belongs to a state. */
  function Prompt(cfg: Config, s: SessionState): Message {
    match s
    case Authenticating(None) => UsernamePrompt
    case Authenticating(Some(_)) => PasswordPrompt
    case WorldSelection(_) => WorldSelectPrompt(|cfg.worlds|)
  }

  predicate LastIs(out: seq<Output>, m: Message) {
    out != [] && out[|out| - 1] == Text(m)
  }

  /** What a closed connection said last, by the way it ended. */
  predicate LastWords(cfg: Config, c: Conn, e: Exit) {
    match e
    case ByShutdown => LastIs(c.out, ShutdownNotice)
    case ByOverflow => LastIs(c.out, BufferOverflowNotice)
    case ByRetryLimit => LastIs(c.out, MaxRetries) && c.authFailures >= cfg.maxLoginAttempts
    case ByStoreError => LastIs(c.out, InternalError)
    case ByDisconnect =>
      || LastIs(c.out, Goodbye)
      || (c.state.WorldSelection? && exists w :: w in cfg.worlds && LastIs(c.out, WorldSelected(w.name)))
    case ByEof | ByIoError => LastIs(c.out, Prompt(cfg, c.state)) || LastIs(c.out, LineTooLongNotice)
    case ByThrottle | ByWriteFailure => false
  }

  predicate PromptInv(cfg: Config, c: Conn) {
    match c.exit
    case None => LastIs(c.out, Prompt(cfg, c.state)) || LastIs(c.out, LineTooLongNotice)
    case Some(e) => LastWords(cfg, c, e)
  }

  lemma EndsWith(out: seq<Output>, messages: seq<Message>)
    requires messages != []
    ensures LastIs(out + Texts(messages), messages[|messages| - 1])
  {
  }

  lemma PromptAnswered(cfg: Config, c: Conn, answer: Answer)
    requires c.exit.None?
    ensures PromptInv(cfg, Answered(cfg, c, answer, true).0)
  {
    EndsWith(c.out, [InternalError]);
    EndsWith(c.out, [MaxRetries]);
    EndsWith(c.out, CompleteAuth(cfg.worlds, None).output);
    if answer.Found? {
      EndsWith(c.out, CompleteAuth(cfg.worlds, Some(answer.account)).output);
    }
  }

  /** Every answer to a line ends in the prompt of the state it leads to, and every farewell is one of two. */
  lemma TransitionOutput(cfg: Config, state: SessionState, text: string)
    ensures match HandleInput(cfg.worlds, state, text)
            case Stay(output) => output != [] && output[|output| - 1] == Prompt(cfg, state)
            case Advance(next, output) => output != [] && output[|output| - 1] == Prompt(cfg, next)
            case Disconnect(goodbye) =>
              || goodbye == [Goodbye]
              || (state.WorldSelection? && exists w :: w in cfg.worlds && goodbye == [WorldSelected(w.name)])
            case AuthPending(_, _) => true
  {
  }

  lemma PromptTransition(cfg: Config, c: Conn, text: string, env: Env)
    requires c.exit.None? && env.firstWriteOk && env.secondWriteOk
    ensures PromptInv(cfg, HandleTransition(cfg, c, HandleInput(cfg.worlds, c.state, text), env).0)
  {
    TransitionOutput(cfg, c.state, text);
    match HandleInput(cfg.worlds, c.state, text)
    case Stay(output) => EndsWith(c.out, output);
    case Advance(next, output) =>
      EndsWith(c.out + EchoPrefix(next), output);
      assert c.out + (EchoPrefix(next) + Texts(output)) == c.out + EchoPrefix(next) + Texts(output);
    case Disconnect(goodbye) =>
      EndsWith(c.out, goodbye);
      EndsWith(c.out + [WontEcho], goodbye);
    case AuthPending(username, password) =>
      var answer := env.verify(username, password);
      PromptAnswered(cfg, Asked(c, Call(username, password, answer)), answer);
  }

  lemma PromptStep(cfg: Config, c: Conn, turn: Turn)
    requires PromptInv(cfg, c) && WritesOk(turn)
    ensures PromptInv(cfg, Step(cfg, c, turn).0)
  {
    if c.exit.None? && !turn.env.shutdown && turn.input.GotLine? {
      PromptTransition(cfg, c.(lineCount := c.lineCount + 1), turn.input.text, turn.env);
      LineStep(cfg, c, turn);
    } else {
      EndsWith(c.out, [ShutdownNotice]);
      EndsWith(c.out, [BufferOverflowNotice]);
      EndsWith(c.out, [LineTooLongNotice]);
    }
  }

  /**
    Prompt discipline, on every run with successful writes: at each loop head the last thing
    written is the prompt of the session's state or the too-long notice, and the last words of a
    closed connection tell how it ended.
   */
  lemma {:induction false} PromptDiscipline(cfg: Config, turns: seq<Turn>)
    requires forall i :: 0 <= i < |turns| ==> WritesOk(turns[i])
    ensures var c := Run(cfg, turns);
            match c.exit
            case None => LastIs(c.out, Prompt(cfg, c.state)) || LastIs(c.out, LineTooLongNotice)
            case Some(e) => LastWords(cfg, c, e)
    decreases |turns|
  {
    if turns == [] {
      EndsWith([], [Banner, UsernamePrompt]);
      assert [] + Texts([Banner, UsernamePrompt]) == Texts([Banner, UsernamePrompt]);
    } else {
      PromptDiscipline(cfg, turns[..|turns| - 1]);
      PromptStep(cfg, Run(cfg, turns[..|turns| - 1]), turns[|turns| - 1]);
    }
  }

  // ---------- Attempts ----------

  /** How many attempts one connection has. */
  function Attempts(cfg: Config): nat {
    if cfg.maxLoginAttempts == 0 then 1 else cfg.maxLoginAttempts
  }

  function CountNotFound(calls: seq<Call>): nat {
    if calls == [] then 0
    else CountNotFound(calls[..|calls| - 1]) + if calls[|calls| - 1].answer.NotFound? then 1 else 0
  }

  /** All calls but the last were refused, failures are counted, and the limit is kept. */
  predicate AttemptInv(cfg: Config, c: Conn) {
    AttemptsKept(cfg, c.authFailures, c.calls, c.exit.None?, c.state)
  }

  predicate AttemptsKept(cfg: Config, authFailures: nat, calls: seq<Call>, open: bool, state: SessionState) {
    && authFailures == CountNotFound(calls)
    && (forall i :: 0 <= i < |calls| - 1 ==> calls[i].answer.NotFound?)
    && |calls| <= Attempts(cfg)
    && (open && !state.WorldSelection? ==>
          |calls| < Attempts(cfg) && forall i :: 0 <= i < |calls| ==> calls[i].answer.NotFound?)
    && (open && state.WorldSelection? ==> calls != [] && calls[|calls| - 1].answer.Found?)
  }

  lemma {:induction false} CountAll(calls: seq<Call>)
    requires forall i :: 0 <= i < |calls| ==> calls[i].answer.NotFound?
    ensures CountNotFound(calls) == |calls|
    decreases |calls|
  {
    if calls != [] {
      CountAll(calls[..|calls| - 1]);
    }
  }

  /** A call after refused ones only. */
  lemma OneMoreCall(calls: seq<Call>, call: Call)
    requires forall i :: 0 <= i < |calls| ==> calls[i].answer.NotFound?
    ensures var all := calls + [call];
            && CountNotFound(all) == |calls| + (if call.answer.NotFound? then 1 else 0)
            && (forall i :: 0 <= i < |all| - 1 ==> all[i].answer.NotFound?)
            && (call.answer.NotFound? ==> forall i :: 0 <= i < |all| ==> all[i].answer.NotFound?)
            && all[|all| - 1] == call
  {
    CountAll(calls);
    assert (calls + [call])[..|calls|] == calls;
  }

  lemma AttemptAnswered(cfg: Config, c: Conn, answer: Answer, ok: bool)
    requires c.exit.None? && IsPasswordState(c.state)
    requires |c.calls| == c.authFailures + 1 && |c.calls| <= Attempts(cfg) && c.calls[c.authFailures].answer == answer
    requires CountNotFound(c.calls) == c.authFailures + (if answer.NotFound? then 1 else 0)
    requires forall i :: 0 <= i < c.authFailures ==> c.calls[i].answer.NotFound?
    ensures AttemptInv(cfg, Answered(cfg, c, answer, ok).0)
  {
    match answer
    case StoreError =>
    case Found(account) => AttemptFinish(cfg, c, Some(account), ok);
    case NotFound =>
      var failed := c.(authFailures := c.authFailures + 1);
      if failed.authFailures < cfg.maxLoginAttempts {
        AttemptFinish(cfg, failed, None, ok);
      }
  }

  lemma AttemptFinish(cfg: Config, c: Conn, result: Option<Account>, ok: bool)
    ensures var d := FinishAuth(cfg, c, ok, result);
            && d.authFailures == c.authFailures && d.calls == c.calls
            && (d.exit.None? ==> (d.state.WorldSelection? <==> result.Some?))
  {
  }

  lemma AttemptAuthenticate(cfg: Config, c: Conn, username: string, password: string, env: Env)
    requires AttemptInv(cfg, c) && c.exit.None? && IsPasswordState(c.state)
    ensures AttemptInv(cfg, Authenticate(cfg, c, username, password, env).0)
  {
    if env.firstWriteOk {
      var call := Call(username, password, env.verify(username, password));
      CountAll(c.calls);
      OneMoreCall(c.calls, call);
      AttemptAnswered(cfg, Asked(c, call), call.answer, env.secondWriteOk);
    }
  }

  /** Which states a transition can come from. */
  lemma TransitionSource(worlds: seq<World>, state: SessionState, text: string)
    ensures var t := HandleInput(worlds, state, text);
            && (t.AuthPending? ==> IsPasswordState(state))
            && (t.Advance? ==> state == INITIAL && t.next.Authenticating?)
  {
  }

  lemma AttemptTransition(cfg: Config, c: Conn, t: Transition, env: Env)
    requires AttemptInv(cfg, c) && c.exit.None?
    requires t.AuthPending? ==> IsPasswordState(c.state)
    requires t.Advance? ==> c.state == INITIAL && t.next.Authenticating?
    ensures AttemptInv(cfg, HandleTransition(cfg, c, t, env).0)
  {
    if t.AuthPending? {
      AttemptAuthenticate(cfg, c, t.username, t.password, env);
    }
  }

  lemma AttemptStep(cfg: Config, c: Conn, turn: Turn)
    requires AttemptInv(cfg, c)
    ensures AttemptInv(cfg, Step(cfg, c, turn).0)
  {
    if c.exit.None? && !turn.env.shutdown && turn.input.GotLine? {
      var t := HandleInput(cfg.worlds, c.state, turn.input.text);
      TransitionSource(cfg.worlds, c.state, turn.input.text);
      AttemptTransition(cfg, c.(lineCount := c.lineCount + 1), t, turn.env);
      LineStep(cfg, c, turn);
    } else {
      OtherStep(cfg, c, turn);
    }
  }

  lemma {:induction false} AttemptInvHolds(cfg: Config, turns: seq<Turn>)
    ensures AttemptInv(cfg, Run(cfg, turns))
    decreases |turns|
  {
    if turns != [] {
      AttemptInvHolds(cfg, turns[..|turns| - 1]);
      AttemptStep(cfg, Run(cfg, turns[..|turns| - 1]), turns[|turns| - 1]);
    }
  }

  /**
    Attempt bound: on every run the store is asked at most max(1, max_login_attempts) times;
    only the last call can have succeeded, and the failure counter is the number of refusals.
   */
  lemma AttemptBound(cfg: Config, turns: seq<Turn>)
    ensures var c := Run(cfg, turns);
            && |c.calls| <= (if cfg.maxLoginAttempts == 0 then 1 else cfg.maxLoginAttempts)
            && c.authFailures == CountNotFound(c.calls)
            && forall i :: 0 <= i < |c.calls| && !c.calls[i].answer.NotFound? ==> i == |c.calls| - 1
  {
    AttemptInvHolds(cfg, turns);
  }

  /** What one turn may do to the limiter: a recorded failure is a counted one, within the limit. */
  lemma EffectIsCounted(cfg: Config, c: Conn, turn: Turn)
    requires AttemptInv(cfg, c)
    ensures var (d, effect) := Step(cfg, c, turn);
            && d.authFailures == c.authFailures + (if effect.RecordsFailure? then 1 else 0)
            && (effect.RecordsFailure? ==> c.exit.None? && d.authFailures <= Attempts(cfg))
            && (effect.ResetsIp? <==> |d.calls| == |c.calls| + 1 && d.calls[|c.calls|].answer.Found?)
            && (effect.RecordsFailure? <==> |d.calls| == |c.calls| + 1 && d.calls[|c.calls|].answer.NotFound?)
  {
    if c.exit.None? && !turn.env.shutdown && turn.input.GotLine? {
      PendingIsAcceptedPassword(cfg.worlds, c.state, turn.input.text);
      if IsPasswordState(c.state) {
        CountAll(c.calls);
      }
    }
  }

  /** What one turn does to the limiter, told from the calls to the store alone. */
  lemma EffectIsTheAnswer(cfg: Config, c: Conn, turn: Turn)
    ensures var (d, effect) := Step(cfg, c, turn);
            || (d.calls == c.calls && effect == NoEffect)
            || (&& |d.calls| == |c.calls| + 1 && d.calls[..|c.calls|] == c.calls
                && match d.calls[|c.calls|].answer
                   case Found(_) => effect == ResetsIp
                   case NotFound => effect == RecordsFailure
                   case StoreError => effect == NoEffect)
  {
    if c.exit.None? && !turn.env.shutdown && turn.input.GotLine? {
      PendingIsAcceptedPassword(cfg.worlds, c.state, turn.input.text);
      LineStep(cfg, c, turn);
    }
  }

  // ---------- Authentication safety ----------

  /** Turn `i` is a line accepted as the username `u`. */
  predicate AcceptsUsername(cfg: Config, turns: seq<Turn>, i: nat, u: string)
    requires i < |turns|
  {
    && Run(cfg, turns[..i]).state == INITIAL
    && turns[i].input.GotLine? && Trim(turns[i].input.text) == u && Credential(u)
    && Run(cfg, turns[..i + 1]).state == Authenticating(Some(u))
  }

  /** Turn `j` is a password line for `u`, and the store answers it with `account`. */
  predicate VerifiesAs(cfg: Config, turns: seq<Turn>, j: nat, u: string, account: Account)
    requires j < |turns|
  {
    && turns[j].input.GotLine?
    && var p := Trim(turns[j].input.text);
    && Credential(p)
    && turns[j].env.verify(u, p) == Found(account)
    && Run(cfg, turns[..j + 1]).calls == Run(cfg, turns[..j]).calls + [Call(u, p, Found(account))]
  }

  /** The session state holds the value `s` after each of the turns from `from` to `to`. */
  predicate StateHolds(cfg: Config, turns: seq<Turn>, from: nat, to: nat, s: SessionState)
    requires to <= |turns|
  {
    forall k :: from <= k <= to ==> Run(cfg, turns[..k]).state == s
  }

  /** The state changes only on an accepted username, an answered password or a refused one. */
  lemma StateChanges(cfg: Config, c: Conn, turn: Turn)
    ensures var d := Step(cfg, c, turn).0;
            d.state != c.state ==>
              && turn.input.GotLine?
              && var t := Trim(turn.input.text);
              && Credential(t)
              && if c.state == INITIAL then d.state == Authenticating(Some(t))
                 else
                   && IsPasswordState(c.state)
                   && var answer := turn.env.verify(c.state.username.value, t);
                   && d.calls == c.calls + [Call(c.state.username.value, t, answer)]
                   && match answer
                      case Found(account) => d.state == WorldSelection(account)
                      case NotFound => d.state == INITIAL
                      case StoreError => false
  {
    if c.exit.None? && !turn.env.shutdown && turn.input.GotLine? {
      AdvanceIsAcceptedUsername(cfg.worlds, c.state, turn.input.text);
      PendingIsAcceptedPassword(cfg.worlds, c.state, turn.input.text);
    }
  }

  /** What holds along a prefix of the turns holds along the turns. */
  lemma LiftState(cfg: Config, turns: seq<Turn>, n: nat, from: nat, to: nat, s: SessionState)
    requires to <= n <= |turns| && StateHolds(cfg, turns[..n], from, to, s)
    ensures StateHolds(cfg, turns, from, to, s)
  {
    forall k | from <= k <= to
      ensures Run(cfg, turns[..k]).state == s
    {
      assert turns[..n][..k] == turns[..k];
    }
  }

  lemma LiftAccepts(cfg: Config, turns: seq<Turn>, n: nat, i: nat, u: string)
    requires i < n <= |turns| && AcceptsUsername(cfg, turns[..n], i, u)
    ensures AcceptsUsername(cfg, turns, i, u)
  {
    assert turns[..n][..i] == turns[..i] && turns[..n][..i + 1] == turns[..i + 1];
  }

  lemma LiftVerifies(cfg: Config, turns: seq<Turn>, n: nat, j: nat, u: string, account: Account)
    requires j < n <= |turns| && VerifiesAs(cfg, turns[..n], j, u, account)
    ensures VerifiesAs(cfg, turns, j, u, account)
  {
    assert turns[..n][..j] == turns[..j] && turns[..n][..j + 1] == turns[..j + 1];
  }

  lemma StateHoldsOneMore(cfg: Config, turns: seq<Turn>, from: nat, n: nat, s: SessionState)
    requires n + 1 == |turns| && StateHolds(cfg, turns, from, n, s) && Run(cfg, turns).state == s
    ensures StateHolds(cfg, turns, from, n + 1, s)
  {
    assert turns[..|turns|] == turns;
  }

  /** A stored username is the most recently accepted one. */
  lemma {:induction false} PasswordOrigin(cfg: Config, turns: seq<Turn>, u: string) returns (i: nat)
    requires Run(cfg, turns).state == Authenticating(Some(u))
    ensures i < |turns| && AcceptsUsername(cfg, turns, i, u)
    ensures StateHolds(cfg, turns, i + 1, |turns|, Authenticating(Some(u)))
    decreases |turns|
  {
    var n := |turns| - 1;
    var before := turns[..n];
    StateChanges(cfg, Run(cfg, before), turns[n]);
    if Run(cfg, before).state == Run(cfg, turns).state {
      i := PasswordOrigin(cfg, before, u);
      LiftAccepts(cfg, turns, n, i, u);
      LiftState(cfg, turns, n, i + 1, n, Authenticating(Some(u)));
      StateHoldsOneMore(cfg, turns, i + 1, n, Authenticating(Some(u)));
    } else {
      i := n;
      assert turns[..n + 1] == turns;
    }
  }

  /**
    Authentication safety: world selection for an account is reached only by the store's answer
    naming that account, for the most recently accepted username and a later password line;
    both are trimmed, nonempty and no session terminators, and the account never changes again.
   */
  lemma {:induction false} AuthenticationSafety(cfg: Config, turns: seq<Turn>, account: Account)
    returns (i: nat, j: nat, u: string)
    requires Run(cfg, turns).state == WorldSelection(account)
    ensures i < j < |turns| && AcceptsUsername(cfg, turns, i, u) && VerifiesAs(cfg, turns, j, u, account)
    ensures StateHolds(cfg, turns, i + 1, j, Authenticating(Some(u)))
    ensures StateHolds(cfg, turns, j + 1, |turns|, WorldSelection(account))
    decreases |turns|
  {
    var before := turns[..|turns| - 1];
    if Run(cfg, before).state == WorldSelection(account) {
      i, j, u := AuthenticationSafety(cfg, before, account);
      StillAuthenticated(cfg, turns, i, j, u, account);
    } else {
      i, j, u := JustAuthenticated(cfg, turns, account);
    }
  }

  lemma StillAuthenticated(cfg: Config, turns: seq<Turn>, i: nat, j: nat, u: string, account: Account)
    requires turns != [] && i < j < |turns| - 1 && Run(cfg, turns).state == WorldSelection(account)
    requires var before := turns[..|turns| - 1];
             && AcceptsUsername(cfg, before, i, u) && VerifiesAs(cfg, before, j, u, account)
             && StateHolds(cfg, before, i + 1, j, Authenticating(Some(u)))
             && StateHolds(cfg, before, j + 1, |turns| - 1, WorldSelection(account))
    ensures AcceptsUsername(cfg, turns, i, u) && VerifiesAs(cfg, turns, j, u, account)
    ensures StateHolds(cfg, turns, i + 1, j, Authenticating(Some(u)))
    ensures StateHolds(cfg, turns, j + 1, |turns|, WorldSelection(account))
  {
    var n := |turns| - 1;
    LiftAccepts(cfg, turns, n, i, u);
    LiftVerifies(cfg, turns, n, j, u, account);
    LiftState(cfg, turns, n, i + 1, j, Authenticating(Some(u)));
    LiftState(cfg, turns, n, j + 1, n, WorldSelection(account));
    StateHoldsOneMore(cfg, turns, j + 1, |turns| - 1, WorldSelection(account));
  }

  lemma JustAuthenticated(cfg: Config, turns: seq<Turn>, account: Account)
    returns (i: nat, j: nat, u: string)
    requires turns != [] && Run(cfg, turns).state == WorldSelection(account)
    requires Run(cfg, turns[..|turns| - 1]).state != WorldSelection(account)
    ensures i < j < |turns| && AcceptsUsername(cfg, turns, i, u) && VerifiesAs(cfg, turns, j, u, account)
    ensures StateHolds(cfg, turns, i + 1, j, Authenticating(Some(u)))
    ensures StateHolds(cfg, turns, j + 1, |turns|, WorldSelection(account))
  {
    j := |turns| - 1;
    u := LastTurnVerifies(cfg, turns, account);
    i := PasswordOrigin(cfg, turns[..j], u);
    LiftAccepts(cfg, turns, j, i, u);
    LiftState(cfg, turns, j, i + 1, j, Authenticating(Some(u)));
    HoldsAtEnd(cfg, turns, WorldSelection(account));
  }

  lemma HoldsAtEnd(cfg: Config, turns: seq<Turn>, s: SessionState)
    requires Run(cfg, turns).state == s
    ensures StateHolds(cfg, turns, |turns|, |turns|, s)
  {
    assert turns[..|turns|] == turns;
  }

  lemma LastTurnVerifies(cfg: Config, turns: seq<Turn>, account: Account) returns (u: string)
    requires turns != [] && Run(cfg, turns).state == WorldSelection(account)
    requires Run(cfg, turns[..|turns| - 1]).state != WorldSelection(account)
    ensures Run(cfg, turns[..|turns| - 1]).state == Authenticating(Some(u))
    ensures VerifiesAs(cfg, turns, |turns| - 1, u, account)
  {
    var n := |turns| - 1;
    var c := Run(cfg, turns[..n]);
    StateChanges(cfg, c, turns[n]);
    u := c.state.username.value;
    assert turns[..n + 1] == turns;
  }

  // ---------- What each input leads to ----------

  lemma TextsOfFew(a: Message, b: Message, d: Message)
    ensures Texts([a]) == [Text(a)] && Texts([a, b]) == [Text(a), Text(b)]
    ensures Texts([a, b, d]) == [Text(a), Text(b), Text(d)]
  {
  }

  /** Before the first turn: the refusal of a throttled client, or the banner. */
  lemma GateTable(writeOk: bool)
    ensures Connect(true, writeOk) ==
            Conn(Authenticating(None), 0, 0, if writeOk then [Text(RateLimited)] else [], [], Some(ByThrottle))
    ensures Connect(false, writeOk) ==
            if writeOk then Conn(Authenticating(None), 0, 0, [Text(Banner), Text(UsernamePrompt)], [], None)
            else Conn(Authenticating(None), 0, 0, [], [], Some(ByWriteFailure))
  {
    TextsOfFew(RateLimited, RateLimited, RateLimited);
    TextsOfFew(Banner, UsernamePrompt, Banner);
  }

  /** Shutdown comes first, whatever the input; then the inputs that are no lines. */
  lemma NoticeTable(cfg: Config, c: Conn, input: Input, env: Env)
    requires c.exit.None?
    ensures env.shutdown ==>
              Step(cfg, c, Turn(input, env)) ==
              (c.(out := c.out + (if env.firstWriteOk then [Text(ShutdownNotice)] else []), exit := Some(ByShutdown)), NoEffect)
    ensures !env.shutdown ==>
              && Step(cfg, c, Turn(GotTooLong, env)) ==
                 (if env.firstWriteOk then c.(out := c.out + [Text(LineTooLongNotice)]) else c.(exit := Some(ByWriteFailure)), NoEffect)
              && Step(cfg, c, Turn(GotOverflow, env)) ==
                 (c.(out := c.out + (if env.firstWriteOk then [Text(BufferOverflowNotice)] else []), exit := Some(ByOverflow)), NoEffect)
              && Step(cfg, c, Turn(GotIoError, env)) == (c.(exit := Some(ByIoError)), NoEffect)
              && Step(cfg, c, Turn(GotEof, env)) == (c.(exit := Some(ByEof)), NoEffect)
  {
    TextsOfFew(ShutdownNotice, LineTooLongNotice, BufferOverflowNotice);
    TextsOfFew(LineTooLongNotice, ShutdownNotice, ShutdownNotice);
    TextsOfFew(BufferOverflowNotice, ShutdownNotice, ShutdownNotice);
    assert c.out + [] == c.out;
  }

  /** A session terminator, in any state: echo restored in the password state, goodbye, end. */
  lemma GoodbyeTurn(cfg: Config, c: Conn, line: string, env: Env)
    requires c.exit.None? && !env.shutdown && IsSessionTerminator(line)
    ensures var restored := c.state.Authenticating? && c.state.username.Some? && env.firstWriteOk;
            Step(cfg, c, Turn(GotLine(line), env)) ==
            (c.(lineCount := c.lineCount + 1,
                out := c.out + (if restored then [WontEcho] else []) + (if env.secondWriteOk then [Text(Goodbye)] else []),
                exit := Some(ByDisconnect)), NoEffect)
  {
    GoodbyeIsExact(cfg.worlds, c.state, line);
    TextsOfFew(Goodbye, Goodbye, Goodbye);
    EmptyEnds(c.out, WontEcho);
  }

  lemma EmptyEnds(out: seq<Output>, o: Output)
    ensures out + [] == out && out + [o] + [] == out + [o]
  {
  }

  /** A line answered with these two messages, after which the connection is where it was. */
  predicate AnswersAndStays(cfg: Config, c: Conn, line: string, env: Env, first: Message, second: Message) {
    Step(cfg, c, Turn(GotLine(line), env)) ==
    (if env.firstWriteOk then c.(lineCount := c.lineCount + 1, out := c.out + [Text(first), Text(second)])
     else c.(lineCount := c.lineCount + 1, exit := Some(ByWriteFailure)), NoEffect)
  }

  /** Lines that change nothing but the output. */
  lemma StayTurns(cfg: Config, c: Conn, line: string, env: Env)
    requires c.exit.None? && !env.shutdown && !IsSessionTerminator(line)
    ensures var n := |cfg.worlds|;
            match c.state
            case Authenticating(None) => Trim(line) == [] ==> AnswersAndStays(cfg, c, line, env, EmptyUsername, UsernamePrompt)
            case Authenticating(Some(_)) => Trim(line) == [] ==> AnswersAndStays(cfg, c, line, env, EmptyPassword, PasswordPrompt)
            case WorldSelection(_) =>
              match ParseUsize(Trim(line))
              case None => AnswersAndStays(cfg, c, line, env, NonNumeric, WorldSelectPrompt(n))
              case Some(k) => k == 0 || k > n ==> AnswersAndStays(cfg, c, line, env, OutOfRange(n), WorldSelectPrompt(n))
  {
    var n := |cfg.worlds|;
    match c.state
    case Authenticating(None) =>
      StayReplies(cfg.worlds, "", Account(0, ""), line);
      TextsOfFew(EmptyUsername, UsernamePrompt, Goodbye);
    case Authenticating(Some(name)) =>
      StayReplies(cfg.worlds, name, Account(0, ""), line);
      TextsOfFew(EmptyPassword, PasswordPrompt, Goodbye);
    case WorldSelection(account) =>
      StayReplies(cfg.worlds, "", account, line);
      TextsOfFew(NonNumeric, WorldSelectPrompt(n), Goodbye);
      TextsOfFew(OutOfRange(n), WorldSelectPrompt(n), Goodbye);
  }

  /** An acceptable username: echo off, the password prompt, the password state. */
  lemma NameTurn(cfg: Config, c: Conn, line: string, env: Env)
    requires c.exit.None? && !env.shutdown && c.state == Authenticating(None) && Credential(Trim(line))
    ensures Step(cfg, c, Turn(GotLine(line), env)) ==
            (if env.firstWriteOk
             then c.(state := Authenticating(Some(Trim(line))), lineCount := c.lineCount + 1,
                     out := c.out + [WillEcho, Text(PasswordPrompt)])
             else c.(lineCount := c.lineCount + 1, exit := Some(ByWriteFailure)), NoEffect)
  {
    AdvanceIsAcceptedUsername(cfg.worlds, c.state, line);
    TextsOfFew(PasswordPrompt, PasswordPrompt, PasswordPrompt);
    assert [WillEcho] + [Text(PasswordPrompt)] == [WillEcho, Text(PasswordPrompt)];
  }

  /** The value of a connection that has asked the store, and what it adds to that. */
  function AfterAsking(c: Conn, call: Call, state: SessionState, failures: nat, added: seq<Output>, exit: Option<Exit>): Conn {
    Conn(state, failures, c.lineCount + 1, c.out + [WontEcho] + added, c.calls + [call], exit)
  }

  /** An acceptable password: what each answer of the store leads to, and each failed write. */
  lemma AttemptTable(cfg: Config, c: Conn, username: string, line: string, env: Env)
    requires c.exit.None? && !env.shutdown && c.state == Authenticating(Some(username)) && Credential(Trim(line))
    ensures var call := Call(username, Trim(line), env.verify(username, Trim(line)));
            var failed := c.authFailures + 1;
            var ok := env.secondWriteOk;
            Step(cfg, c, Turn(GotLine(line), env)) ==
            if !env.firstWriteOk then (c.(lineCount := c.lineCount + 1, exit := Some(ByWriteFailure)), NoEffect)
            else
              match call.answer
              case StoreError =>
                (AfterAsking(c, call, c.state, c.authFailures, if ok then [Text(InternalError)] else [], Some(ByStoreError)), NoEffect)
              case Found(account) =>
                (if ok then
                   AfterAsking(c, call, WorldSelection(account), c.authFailures,
                               [Text(Welcome(account.username)), Text(WorldList(Menu(cfg.worlds))),
                                Text(WorldSelectPrompt(|cfg.worlds|))], None)
                 else AfterAsking(c, call, c.state, c.authFailures, [], Some(ByWriteFailure)), ResetsIp)
              case NotFound =>
                (if failed >= cfg.maxLoginAttempts then
                   AfterAsking(c, call, c.state, failed, if ok then [Text(MaxRetries)] else [], Some(ByRetryLimit))
                 else if ok then
                   AfterAsking(c, call, Authenticating(None), failed, [Text(AuthFailed), Text(UsernamePrompt)], None)
                 else AfterAsking(c, call, c.state, failed, [], Some(ByWriteFailure)), RecordsFailure)
  {
    PendingIsAcceptedPassword(cfg.worlds, c.state, line);
    if env.firstWriteOk {
      AnswerTable(cfg, c.(lineCount := c.lineCount + 1), Call(username, Trim(line), env.verify(username, Trim(line))), env.secondWriteOk);
    }
  }

  lemma AnswerTable(cfg: Config, c: Conn, call: Call, ok: bool)
    requires c.exit.None? && c.lineCount > 0
    ensures var b := c.(lineCount := c.lineCount - 1);
            var failed := c.authFailures + 1;
            Answered(cfg, Asked(c, call), call.answer, ok) ==
            match call.answer
            case StoreError =>
              (AfterAsking(b, call, c.state, c.authFailures, if ok then [Text(InternalError)] else [], Some(ByStoreError)), NoEffect)
            case Found(account) =>
              (if ok then
                 AfterAsking(b, call, WorldSelection(account), c.authFailures,
                             [Text(Welcome(account.username)), Text(WorldList(Menu(cfg.worlds))),
                              Text(WorldSelectPrompt(|cfg.worlds|))], None)
               else AfterAsking(b, call, c.state, c.authFailures, [], Some(ByWriteFailure)), ResetsIp)
            case NotFound =>
              (if failed >= cfg.maxLoginAttempts then
                 AfterAsking(b, call, c.state, failed, if ok then [Text(MaxRetries)] else [], Some(ByRetryLimit))
               else if ok then
                 AfterAsking(b, call, Authenticating(None), failed, [Text(AuthFailed), Text(UsernamePrompt)], None)
               else AfterAsking(b, call, c.state, failed, [], Some(ByWriteFailure)), RecordsFailure)
  {
    EmptyEnds(c.out, WontEcho);
    match call.answer
    case StoreError => TextsOfFew(InternalError, InternalError, InternalError);
    case Found(account) =>
      TextsOfFew(Welcome(account.username), WorldList(Menu(cfg.worlds)), WorldSelectPrompt(|cfg.worlds|));
    case NotFound =>
      TextsOfFew(MaxRetries, MaxRetries, MaxRetries);
      TextsOfFew(AuthFailed, UsernamePrompt, MaxRetries);
  }

  /** A number on the menu: the world is named, and the connection ends. */
  lemma ChoiceTurn(cfg: Config, c: Conn, account: Account, line: string, n: nat, env: Env)
    requires c.exit.None? && !env.shutdown && c.state == WorldSelection(account)
    requires 1 <= n <= |cfg.worlds| && ParseUsize(Trim(line)) == Some(n)
    ensures Step(cfg, c, Turn(GotLine(line), env)) ==
            (c.(lineCount := c.lineCount + 1,
                out := c.out + (if env.secondWriteOk then [Text(WorldSelected(cfg.worlds[n - 1].name))] else []),
                exit := Some(ByDisconnect)), NoEffect)
  {
    TerminatorsAreNotNumbers(Trim(line));
    TextsOfFew(WorldSelected(cfg.worlds[n - 1].name), Goodbye, Goodbye);
    EmptyEnds(c.out, WontEcho);
  }

  // ---------- A login that succeeds ----------

  predicate AllIsWell(env: Env) {
    !env.shutdown && env.firstWriteOk && env.secondWriteOk
  }

  /** What a client sees who logs in at the first attempt and picks a world. */
  function LoginTranscript(cfg: Config, account: Account, world: World): seq<Output> {
    [Text(Banner), Text(UsernamePrompt)] + [WillEcho, Text(PasswordPrompt)] + [WontEcho] +
    [Text(Welcome(account.username)), Text(WorldList(Menu(cfg.worlds))), Text(WorldSelectPrompt(|cfg.worlds|))] +
    [Text(WorldSelected(world.name))]
  }

  /**
    Three lines suffice: acceptable credentials that the store confirms, then a number on the
    menu, end the connection with that world, after one call to the store and no failure.
   */
  lemma LoginRun(cfg: Config, turns: seq<Turn>, user: string, pass: string, choice: string, account: Account, n: nat)
    requires |turns| >= 3 && turns[0].input == GotLine(user) && turns[1].input == GotLine(pass) && turns[2].input == GotLine(choice)
    requires forall i :: 0 <= i < 3 ==> AllIsWell(turns[i].env)
    requires Credential(Trim(user)) && Credential(Trim(pass))
    requires turns[1].env.verify(Trim(user), Trim(pass)) == Found(account)
    requires 1 <= n <= |cfg.worlds| && ParseUsize(Trim(choice)) == Some(n)
    ensures Run(cfg, turns) == Conn(WorldSelection(account), 0, 3, LoginTranscript(cfg, account, cfg.worlds[n - 1]),
                                    [Call(Trim(user), Trim(pass), Found(account))], Some(ByDisconnect))
  {
    LoginToMenu(cfg, turns, user, pass, account);
    RunExtend(cfg, turns, 2);
    ChoiceTurn(cfg, Run(cfg, turns[..2]), account, choice, n, turns[2].env);
    assert turns[2] == Turn(GotLine(choice), turns[2].env);
    ClosedForGood(cfg, turns, 3);
  }

  /** The first two of them lead to the menu. */
  lemma LoginToMenu(cfg: Config, turns: seq<Turn>, user: string, pass: string, account: Account)
    requires |turns| >= 2 && turns[0].input == GotLine(user) && turns[1].input == GotLine(pass)
    requires forall i :: 0 <= i < 2 ==> AllIsWell(turns[i].env)
    requires Credential(Trim(user)) && Credential(Trim(pass))
    requires turns[1].env.verify(Trim(user), Trim(pass)) == Found(account)
    ensures Run(cfg, turns[..2]) ==
            Conn(WorldSelection(account), 0, 2,
                 [Text(Banner), Text(UsernamePrompt)] + [WillEcho, Text(PasswordPrompt)] + [WontEcho] +
                 [Text(Welcome(account.username)), Text(WorldList(Menu(cfg.worlds))), Text(WorldSelectPrompt(|cfg.worlds|))],
                 [Call(Trim(user), Trim(pass), Found(account))], None)
  {
    assert turns[..0] == [];
    RunExtend(cfg, turns, 0);
    GateTable(true);
    NameTurn(cfg, GREETED, user, turns[0].env);
    assert turns[0] == Turn(GotLine(user), turns[0].env);
    var named := Run(cfg, turns[..1]);
    RunExtend(cfg, turns, 1);
    AttemptTable(cfg, named, Trim(user), pass, turns[1].env);
    assert turns[1] == Turn(GotLine(pass), turns[1].env);
    assert [] + [Call(Trim(user), Trim(pass), Found(account))] == [Call(Trim(user), Trim(pass), Found(account))];
  }
}
