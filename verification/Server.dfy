/**
  The whole server as interleaved steps: the accept loop with its permits and shutdown, one task
  per connection, and the rate limiter they share.
 */
module Server {
  import opened Wrappers
  import opened Sessions
  import opened Connections
  import RL = RateLimiter

  /**
    A spawned task: waiting at the connect-time gate, running its connection, or finished.
    `polled` says that the current poll of the connection's loop has passed its shutdown check.
   */
  datatype Phase = AtGate | Live(conn: Conn, polled: bool) | Done

  datatype Task = Task(ip: RL.IpAddr, phase: Phase, joined: bool)

  /** Where the accept loop is; `Accepting` is past the shutdown check of the current poll. */
  datatype LoopPhase = Head | Accepting | Draining | Aborting | Returned

  datatype Setup = Setup(limits: RL.Settings, cfg: Config, maxConnections: nat)

  datatype Sys = Sys(limiter: RL.Tracked, tasks: seq<Task>, permits: nat, cancelled: bool, loop: LoopPhase,
                     accepted: nat, rejected: nat, lateSpawns: nat, drained: nat)

  datatype Event =
    | Cancel
    | ObserveShutdown
    | PollAccept
    | AcceptPending
    | AcceptFailed
    | AcceptStream(peer: RL.IpAddr)
    | PassGate(i: nat, at: RL.Reading, writeOk: bool)
    | PollTurn(i: nat)
    | TurnPending(i: nat)
    | TakeTurn(i: nat, turn: Turn, at: RL.Reading, pushAt: nat, victim: Option<RL.IpAddr>)
    | Finish(i: nat)
    | Join(i: nat)
    | DrainTimeout
    | Abort(i: nat)
    | Return

  function Init(setup: Setup): Sys {
    Sys(RL.START, [], setup.maxConnections, false, Head, 0, 0, 0, 0)
  }

  predicate Running(sys: Sys, i: nat) {
    i < |sys.tasks| && sys.tasks[i].phase.Live? && sys.tasks[i].phase.conn.exit.None?
  }

  /** The effect a connection's turn has on the limiter. */
  function EffectOf(setup: Setup, sys: Sys, e: Event): Effect
    requires e.TakeTurn? && Running(sys, e.i)
  {
    Step(setup.cfg, sys.tasks[e.i].phase.conn, e.turn).1
  }

  /** The limiter operation an event performs. */
  function LimiterOp(setup: Setup, sys: Sys, e: Event): Option<RL.Op> {
    match e
    case PassGate(i, at, _) => if i < |sys.tasks| then Some(RL.Check(sys.tasks[i].ip, at)) else None
    case TakeTurn(i, _, at, pushAt, victim) =>
      if !Running(sys, i) then None
      else (match EffectOf(setup, sys, e)
            case NoEffect => None
            case ResetsIp => Some(RL.Reset(sys.tasks[i].ip))
            case RecordsFailure => Some(RL.Record(sys.tasks[i].ip, at, pushAt, victim)))
    case _ => None
  }

  function LimiterAfter(setup: Setup, sys: Sys, e: Event): RL.Tracked {
    match LimiterOp(setup, sys, e)
    case None => sys.limiter
    case Some(op) => RL.Next(setup.limits, sys.limiter, op)
  }

  predicate AllJoined(tasks: seq<Task>) {
    forall i :: 0 <= i < |tasks| ==> tasks[i].joined
  }

  predicate Enabled(setup: Setup, sys: Sys, e: Event) {
    && (LimiterOp(setup, sys, e).Some? ==> RL.Allowed(setup.limits, sys.limiter, LimiterOp(setup, sys, e).value))
    && match e
       case Cancel => true
       case ObserveShutdown => sys.loop == Head && sys.cancelled
       case PollAccept => sys.loop == Head && !sys.cancelled
       case AcceptPending | AcceptFailed => sys.loop == Accepting
       case AcceptStream(_) => sys.loop == Accepting
       case PassGate(i, _, _) => i < |sys.tasks| && sys.tasks[i].phase == AtGate
       case PollTurn(i) => Running(sys, i) && !sys.tasks[i].phase.polled && !sys.cancelled
       case TurnPending(i) => Running(sys, i) && sys.tasks[i].phase.polled
       case TakeTurn(i, turn, _, _, _) =>
         Running(sys, i) && if turn.env.shutdown then sys.cancelled && !sys.tasks[i].phase.polled else sys.tasks[i].phase.polled
       case Finish(i) => i < |sys.tasks| && sys.tasks[i].phase.Live? && sys.tasks[i].phase.conn.exit.Some?
       case Join(i) =>
         (sys.loop == Draining || sys.loop == Aborting) && i < |sys.tasks| && sys.tasks[i].phase == Done && !sys.tasks[i].joined
       case DrainTimeout => sys.loop == Draining
       case Abort(i) => sys.loop == Aborting && i < |sys.tasks| && sys.tasks[i].phase != Done
       case Return => (sys.loop == Draining || sys.loop == Aborting) && AllJoined(sys.tasks)
  }

  /** Events that replace the task numbered `e.i`. */
  predicate TouchesTask(e: Event) {
    e.PassGate? || e.PollTurn? || e.TurnPending? || e.TakeTurn? || e.Finish? || e.Join? || e.Abort?
  }

  function SetPhase(sys: Sys, i: nat, phase: Phase): seq<Task>
    requires i < |sys.tasks|
  {
    sys.tasks[i := sys.tasks[i].(phase := phase)]
  }

  /** An accepted stream takes a permit and a task, or is turned away when no permit is left. */
  function Accept(sys: Sys, peer: RL.IpAddr): Sys {
    var counted := sys.(accepted := sys.accepted + 1, loop := Head);
    if sys.permits == 0 then counted.(rejected := sys.rejected + 1)
    else
      counted.(permits := sys.permits - 1, tasks := sys.tasks + [Task(peer, AtGate, false)],
               lateSpawns := sys.lateSpawns + if sys.cancelled then 1 else 0)
  }

  function Next(setup: Setup, sys: Sys, e: Event): Sys
    requires Enabled(setup, sys, e)
  {
    match e
    case Cancel => sys.(cancelled := true)
    case ObserveShutdown => sys.(loop := Draining)
    case PollAccept => sys.(loop := Accepting)
    case AcceptPending | AcceptFailed => sys.(loop := Head)
    case AcceptStream(peer) => Accept(sys, peer)
    case PassGate(i, at, writeOk) =>
      var throttled := RL.Checked(setup.limits, sys.limiter.failures, sys.tasks[i].ip, at).1;
      sys.(limiter := LimiterAfter(setup, sys, e), tasks := SetPhase(sys, i, Live(Connect(throttled, writeOk), false)))
    case PollTurn(i) => sys.(tasks := SetPhase(sys, i, Live(sys.tasks[i].phase.conn, true)))
    case TurnPending(i) => sys.(tasks := SetPhase(sys, i, Live(sys.tasks[i].phase.conn, false)))
    case TakeTurn(i, turn, _, _, _) =>
      sys.(limiter := LimiterAfter(setup, sys, e),
           tasks := SetPhase(sys, i, Live(Step(setup.cfg, sys.tasks[i].phase.conn, turn).0, false)))
    case Finish(i) => sys.(tasks := SetPhase(sys, i, Done), permits := sys.permits + 1)
    case Join(i) => sys.(tasks := sys.tasks[i := sys.tasks[i].(joined := true)], drained := sys.drained + 1)
    case DrainTimeout => sys.(loop := Aborting)
    case Abort(i) => sys.(tasks := SetPhase(sys, i, Done), permits := sys.permits + 1)
    case Return => sys.(loop := Returned)
  }

  predicate EnabledAll(setup: Setup, sys: Sys, events: seq<Event>)
    decreases |events|
  {
    events == [] || (Enabled(setup, sys, events[0]) && EnabledAll(setup, Next(setup, sys, events[0]), events[1..]))
  }

  /** The state after an interleaving. */
  function RunAll(setup: Setup, sys: Sys, events: seq<Event>): Sys
    requires EnabledAll(setup, sys, events)
    decreases |events|
  {
    if events == [] then sys else RunAll(setup, Next(setup, sys, events[0]), events[1..])
  }

  // ---------- Permits, tasks and shutdown ----------

  function Weight(t: Task): nat {
    if t.phase == Done then 0 else 1
  }

  function CountLive(tasks: seq<Task>): nat {
    if tasks == [] then 0 else Weight(tasks[0]) + CountLive(tasks[1..])
  }

  function CountJoined(tasks: seq<Task>): nat {
    if tasks == [] then 0 else (if tasks[0].joined then 1 else 0) + CountJoined(tasks[1..])
  }

  lemma {:induction false} CountAppend(tasks: seq<Task>, t: Task)
    ensures CountLive(tasks + [t]) == CountLive(tasks) + Weight(t)
    ensures CountJoined(tasks + [t]) == CountJoined(tasks) + (if t.joined then 1 else 0)
    decreases |tasks|
  {
    if tasks == [] {
      assert tasks + [t] == [t] && [t][1..] == [];
    } else {
      assert (tasks + [t])[1..] == tasks[1..] + [t];
      CountAppend(tasks[1..], t);
    }
  }

  lemma {:induction false} CountUpdate(tasks: seq<Task>, i: nat, t: Task)
    requires i < |tasks|
    ensures CountLive(tasks[i := t]) == CountLive(tasks) - Weight(tasks[i]) + Weight(t)
    ensures CountJoined(tasks[i := t]) == CountJoined(tasks) - (if tasks[i].joined then 1 else 0) + (if t.joined then 1 else 0)
    decreases i
  {
    if i == 0 {
      assert tasks[0 := t][1..] == tasks[1..];
    } else {
      assert tasks[i := t][1..] == tasks[1..][i - 1 := t];
      CountUpdate(tasks[1..], i - 1, t);
    }
  }

  lemma {:induction false} NoneLive(tasks: seq<Task>)
    requires forall i :: 0 <= i < |tasks| ==> tasks[i].phase == Done
    ensures CountLive(tasks) == 0
    decreases |tasks|
  {
    if tasks != [] {
      NoneLive(tasks[1..]);
    }
  }

  lemma {:induction false} AllCounted(tasks: seq<Task>)
    requires AllJoined(tasks)
    ensures CountJoined(tasks) == |tasks|
    decreases |tasks|
  {
    if tasks != [] {
      AllCounted(tasks[1..]);
    }
  }

  predicate TaskOk(setup: Setup, t: Task) {
    && (t.joined ==> t.phase == Done)
    && (t.phase.Live? && t.phase.conn.exit.None? ==> AttemptInv(setup.cfg, t.phase.conn))
  }

  predicate TasksOk(setup: Setup, tasks: seq<Task>) {
    forall i :: 0 <= i < |tasks| ==> TaskOk(setup, tasks[i])
  }

  predicate SysInv(setup: Setup, sys: Sys) {
    && sys.permits + CountLive(sys.tasks) == setup.maxConnections
    && sys.accepted == |sys.tasks| + sys.rejected
    && sys.drained == CountJoined(sys.tasks)
    && TasksOk(setup, sys.tasks)
    && (sys.lateSpawns == 0 || (sys.lateSpawns == 1 && sys.cancelled && sys.loop != Accepting))
    && (!sys.loop.Head? && !sys.loop.Accepting? ==> sys.cancelled)
    && (sys.loop.Returned? ==> AllJoined(sys.tasks))
  }

  lemma TasksOkUpdate(setup: Setup, tasks: seq<Task>, i: nat, t: Task)
    requires i < |tasks| && TasksOk(setup, tasks) && TaskOk(setup, t)
    ensures TasksOk(setup, tasks[i := t])
  {
  }

  lemma TurnKeepsTaskOk(setup: Setup, c: Conn, turn: Turn)
    requires AttemptInv(setup.cfg, c)
    ensures AttemptInv(setup.cfg, Step(setup.cfg, c, turn).0)
  {
    AttemptStep(setup.cfg, c, turn);
  }

  /** Steps that replace one task. */
  lemma InvTaskStep(setup: Setup, sys: Sys, e: Event)
    requires SysInv(setup, sys) && Enabled(setup, sys, e)
    requires TouchesTask(e)
    ensures SysInv(setup, Next(setup, sys, e))
  {
    var next := Next(setup, sys, e);
    var t := next.tasks[e.i];
    if e.TakeTurn? {
      TurnKeepsTaskOk(setup, sys.tasks[e.i].phase.conn, e.turn);
    }
    assert TaskOk(setup, sys.tasks[e.i]);
    assert TaskOk(setup, t);
    CountUpdate(sys.tasks, e.i, t);
    TasksOkUpdate(setup, sys.tasks, e.i, t);
  }

  lemma InvAccept(setup: Setup, sys: Sys, peer: RL.IpAddr)
    requires SysInv(setup, sys) && sys.loop == Accepting
    ensures SysInv(setup, Accept(sys, peer))
  {
    CountAppend(sys.tasks, Task(peer, AtGate, false));
  }

  lemma InvStep(setup: Setup, sys: Sys, e: Event)
    requires SysInv(setup, sys) && Enabled(setup, sys, e)
    ensures SysInv(setup, Next(setup, sys, e))
  {
    if e.AcceptStream? {
      InvAccept(setup, sys, e.peer);
    } else if TouchesTask(e) {
      InvTaskStep(setup, sys, e);
    }
  }

  lemma {:induction false} InvRun(setup: Setup, sys: Sys, events: seq<Event>)
    requires SysInv(setup, sys) && EnabledAll(setup, sys, events)
    ensures SysInv(setup, RunAll(setup, sys, events))
    decreases |events|
  {
    if events != [] {
      InvStep(setup, sys, events[0]);
      InvRun(setup, Next(setup, sys, events[0]), events[1..]);
    }
  }

  /**
    Permit conservation, in every interleaving: free permits plus unfinished tasks make up
    max_connections, every accepted stream was spawned or rejected, at most one task was spawned
    after cancellation, and the loop has returned only if cancelled, with every task finished
    and joined and all permits back, after a drain and after a timeout alike.
   */
  lemma PermitConservation(setup: Setup, events: seq<Event>)
    requires EnabledAll(setup, Init(setup), events)
    ensures var sys := RunAll(setup, Init(setup), events);
            && sys.permits + CountLive(sys.tasks) == setup.maxConnections
            && sys.accepted == |sys.tasks| + sys.rejected
            && sys.lateSpawns <= 1
            && (sys.loop.Returned? ==>
                  && sys.cancelled && sys.permits == setup.maxConnections && sys.drained == |sys.tasks|
                  && forall i :: 0 <= i < |sys.tasks| ==> sys.tasks[i].phase == Done)
  {
    InvRun(setup, Init(setup), events);
    var sys := RunAll(setup, Init(setup), events);
    if sys.loop.Returned? {
      forall i | 0 <= i < |sys.tasks|
        ensures sys.tasks[i].phase == Done
      {
        assert TaskOk(setup, sys.tasks[i]);
      }
      NoneLive(sys.tasks);
      AllCounted(sys.tasks);
    }
  }

  /** A stream is turned away exactly when max_connections tasks are unfinished. */
  lemma RejectedExactlyWhenFull(setup: Setup, events: seq<Event>, peer: RL.IpAddr)
    requires EnabledAll(setup, Init(setup), events)
    requires RunAll(setup, Init(setup), events).loop == Accepting
    ensures var sys := RunAll(setup, Init(setup), events);
            var next := Next(setup, sys, AcceptStream(peer));
            if CountLive(sys.tasks) == setup.maxConnections
            then next.rejected == sys.rejected + 1 && next.tasks == sys.tasks
            else next.rejected == sys.rejected && next.tasks == sys.tasks + [Task(peer, AtGate, false)]
  {
    InvRun(setup, Init(setup), events);
  }

  /** Turns other than the shutdown turn that task `i` takes along the run. */
  function InputTurns(setup: Setup, sys: Sys, events: seq<Event>, i: nat): nat
    requires EnabledAll(setup, sys, events)
    decreases |events|
  {
    if events == [] then 0
    else (if events[0].TakeTurn? && events[0].i == i && !events[0].turn.env.shutdown then 1 else 0)
         + InputTurns(setup, Next(setup, sys, events[0]), events[1..], i)
  }

  predicate Polled(sys: Sys, i: nat) {
    i < |sys.tasks| && sys.tasks[i].phase.Live? && sys.tasks[i].phase.polled
  }

  /**
    Shutdown priority: once cancelled, a connection handles at most one more input, and only if
    it had passed its shutdown check before; a connection not there yet handles none.
   */
  lemma {:induction false} ShutdownPriority(setup: Setup, sys: Sys, events: seq<Event>, i: nat)
    requires sys.cancelled && EnabledAll(setup, sys, events)
    ensures InputTurns(setup, sys, events, i) <= if Polled(sys, i) then 1 else 0
    decreases |events|
  {
    if events != [] {
      ShutdownPriority(setup, Next(setup, sys, events[0]), events[1..], i);
    }
  }

  // ---------- The throttle bound ----------

  /** Failures a connection may still record. */
  function Left(cfg: Config, phase: Phase): nat {
    if phase.Live? && phase.conn.exit.None? && phase.conn.authFailures < Attempts(cfg)
    then Attempts(cfg) - phase.conn.authFailures else 0
  }

  /** Failures the connections of an IP that are past the gate may still record. */
  function Budget(cfg: Config, tasks: seq<Task>, ip: RL.IpAddr): nat {
    if tasks == [] then 0
    else (if tasks[0].ip == ip then Left(cfg, tasks[0].phase) else 0) + Budget(cfg, tasks[1..], ip)
  }

  lemma {:induction false} BudgetAppend(cfg: Config, tasks: seq<Task>, t: Task, ip: RL.IpAddr)
    requires t.phase == AtGate
    ensures Budget(cfg, tasks + [t], ip) == Budget(cfg, tasks, ip)
    decreases |tasks|
  {
    if tasks == [] {
      assert tasks + [t] == [t] && [t][1..] == [];
    } else {
      assert (tasks + [t])[1..] == tasks[1..] + [t];
      BudgetAppend(cfg, tasks[1..], t, ip);
    }
  }

  lemma {:induction false} BudgetUpdate(cfg: Config, tasks: seq<Task>, i: nat, t: Task, ip: RL.IpAddr)
    requires i < |tasks| && t.ip == tasks[i].ip
    ensures Budget(cfg, tasks[i := t], ip) ==
            Budget(cfg, tasks, ip) + if t.ip == ip then Left(cfg, t.phase) - Left(cfg, tasks[i].phase) else 0
    decreases i
  {
    if i == 0 {
      assert tasks[0 := t][1..] == tasks[1..];
    } else {
      assert tasks[i := t][1..] == tasks[1..][i - 1 := t];
      BudgetUpdate(cfg, tasks[1..], i - 1, t, ip);
    }
  }

  lemma {:induction false} BudgetBound(cfg: Config, tasks: seq<Task>, ip: RL.IpAddr)
    ensures Budget(cfg, tasks, ip) <= CountLive(tasks) * Attempts(cfg)
    decreases |tasks|
  {
    if tasks != [] {
      BudgetBound(cfg, tasks[1..], ip);
      assert CountLive(tasks) * Attempts(cfg) ==
             Weight(tasks[0]) * Attempts(cfg) + CountLive(tasks[1..]) * Attempts(cfg);
    }
  }

  /** The call to the store an event makes, read off the connection before and after. */
  function NewCall(setup: Setup, sys: Sys, e: Event): Option<Call> {
    if e.TakeTurn? && Running(sys, e.i) then
      var c := sys.tasks[e.i].phase.conn;
      var d := Step(setup.cfg, c, e.turn).0;
      if |d.calls| > |c.calls| then Some(d.calls[|c.calls|]) else None
    else None
  }

  /** A call of a connection of `ip` is answered this way. */
  predicate RefusedFor(setup: Setup, sys: Sys, e: Event, ip: RL.IpAddr) {
    var call := NewCall(setup, sys, e);
    call.Some? && call.value.answer.NotFound? && sys.tasks[e.i].ip == ip
  }

  predicate AdmittedFor(setup: Setup, sys: Sys, e: Event, ip: RL.IpAddr) {
    var call := NewCall(setup, sys, e);
    call.Some? && call.value.answer.Found? && sys.tasks[e.i].ip == ip
  }

  /** A refused call of a new IP finds max_entries tracked and takes the place of `ip`. */
  predicate EvictedBy(setup: Setup, sys: Sys, e: Event, ip: RL.IpAddr) {
    var call := NewCall(setup, sys, e);
    && call.Some? && call.value.answer.NotFound? && e.victim == Some(ip)
    && sys.tasks[e.i].ip !in sys.limiter.failures && |sys.limiter.failures| >= setup.limits.maxEntries
  }

  /** The operation the limiter carries out, told from the store's answer. */
  lemma OpIsTheAnswer(setup: Setup, sys: Sys, e: Event)
    ensures e.TakeTurn? && Running(sys, e.i) ==>
              LimiterOp(setup, sys, e) ==
              match NewCall(setup, sys, e)
              case None => None
              case Some(call) =>
                match call.answer
                case Found(_) => Some(RL.Reset(sys.tasks[e.i].ip))
                case NotFound => Some(RL.Record(sys.tasks[e.i].ip, e.at, e.pushAt, e.victim))
                case StoreError => None
  {
    if e.TakeTurn? && Running(sys, e.i) {
      EffectIsTheAnswer(setup.cfg, sys.tasks[e.i].phase.conn, e.turn);
    }
  }

  /** The event makes the limiter forget `ip`: a success of one of its connections, or its eviction. */
  predicate Forgets(setup: Setup, sys: Sys, e: Event, ip: RL.IpAddr) {
    AdmittedFor(setup, sys, e, ip) || EvictedBy(setup, sys, e, ip)
  }

  /** The clock readings an event makes the limiter take, and the last of them. */
  function ReadingOf(setup: Setup, sys: Sys, e: Event): Option<RL.Reading> {
    if e.PassGate? || (e.TakeTurn? && NewCall(setup, sys, e).Some? && NewCall(setup, sys, e).value.answer.NotFound?) then Some(e.at)
    else None
  }

  predicate NotAfter(setup: Setup, sys: Sys, e: Event, until: nat) {
    ReadingOf(setup, sys, e).Some? ==> if e.PassGate? then e.at.again <= until else e.pushAt <= until
  }

  /** Along the run the limiter does not forget `ip`, and the clock does not pass `until`. */
  predicate Undisturbed(setup: Setup, sys: Sys, events: seq<Event>, ip: RL.IpAddr, until: nat)
    requires EnabledAll(setup, sys, events)
    decreases |events|
  {
    events == [] ||
    (&& !Forgets(setup, sys, events[0], ip)
     && NotAfter(setup, sys, events[0], until)
     && Undisturbed(setup, Next(setup, sys, events[0]), events[1..], ip, until))
  }

  /** Refused calls of connections of `ip` along the run. */
  function RefusedCalls(setup: Setup, sys: Sys, events: seq<Event>, ip: RL.IpAddr): nat
    requires EnabledAll(setup, sys, events)
    decreases |events|
  {
    if events == [] then 0
    else (if RefusedFor(setup, sys, events[0], ip) then 1 else 0)
         + RefusedCalls(setup, Next(setup, sys, events[0]), events[1..], ip)
  }

  /** Enough stored failures will still be inside the window at time `until`. */
  predicate ThrottledUntil(s: RL.Settings, t: RL.Tracked, ip: RL.IpAddr, until: nat) {
    && ip in t.failures && t.clock >= s.window && until >= s.window
    && RL.CountSince(t.failures[ip], until - s.window) >= s.maxFailures
  }

  lemma {:induction false} PruneKeepsCount(d: seq<nat>, cutoff: nat, from: nat)
    requires cutoff <= from
    ensures RL.CountSince(RL.Prune(d, cutoff), from) == RL.CountSince(d, from)
    decreases |d|
  {
    if d != [] && d[0] < cutoff {
      PruneKeepsCount(d[1..], cutoff, from);
    }
  }

  lemma {:induction false} PushKeepsCount(d: seq<nat>, t: nat, from: nat)
    ensures RL.CountSince(d + [t], from) >= RL.CountSince(d, from)
    decreases |d|
  {
    if d != [] {
      assert (d + [t])[1..] == d[1..] + [t];
      PushKeepsCount(d[1..], t, from);
    }
  }

  /** A throttled IP is refused at the gate until then. */
  lemma ThrottledAtGate(s: RL.Settings, t: RL.Tracked, ip: RL.IpAddr, at: RL.Reading, until: nat)
    requires ThrottledUntil(s, t, ip, until) && t.clock <= at.now <= at.again <= until
    ensures RL.Checked(s, t.failures, ip, at).1
  {
    PruneKeepsCount(t.failures[ip], at.now - s.window, until - s.window);
  }

  lemma StaysThrottledOp(s: RL.Settings, t: RL.Tracked, op: RL.Op, ip: RL.IpAddr, until: nat)
    requires ThrottledUntil(s, t, ip, until) && RL.Allowed(s, t, op)
    requires match op
             case Check(_, at) => at.again <= until
             case Record(who, _, pushAt, victim) => pushAt <= until && !(RL.NeedsRoom(s, t.failures, who) && victim == Some(ip))
             case Reset(who) => who != ip
    ensures ThrottledUntil(s, RL.Next(s, t, op), ip, until)
  {
    var d, from := t.failures[ip], until - s.window;
    match op
    case Check(who, at) =>
      PruneKeepsCount(d, at.now - s.window, from);
    case Record(who, at, pushAt, victim) =>
      if who == ip {
        PruneKeepsCount(d, at.now - s.window, from);
        PushKeepsCount(RL.Prune(d, at.now - s.window), pushAt, from);
      }
    case Reset(_) =>
  }

  lemma StaysThrottled(setup: Setup, sys: Sys, e: Event, ip: RL.IpAddr, until: nat)
    requires Enabled(setup, sys, e) && ThrottledUntil(setup.limits, sys.limiter, ip, until)
    requires !Forgets(setup, sys, e, ip) && NotAfter(setup, sys, e, until)
    ensures ThrottledUntil(setup.limits, Next(setup, sys, e).limiter, ip, until)
  {
    var op := LimiterOp(setup, sys, e);
    OpIsTheAnswer(setup, sys, e);
    if op.Some? {
      StaysThrottledOp(setup.limits, sys.limiter, op.value, ip, until);
    }
  }

  /** A turn spends at least what it records. */
  lemma TurnSpends(cfg: Config, c: Conn, turn: Turn)
    requires c.exit.None? && AttemptInv(cfg, c)
    ensures var (d, effect) := Step(cfg, c, turn);
            Left(cfg, Live(d, false)) + (if effect.RecordsFailure? then 1 else 0) <= Left(cfg, Live(c, true))
  {
    EffectIsCounted(cfg, c, turn);
  }

  /** The event is not a connection of `ip` getting past the gate. */
  predicate Refuses(setup: Setup, sys: Sys, e: Event, ip: RL.IpAddr) {
    e.PassGate? && e.i < |sys.tasks| && sys.tasks[e.i].ip == ip ==>
      RL.Checked(setup.limits, sys.limiter.failures, ip, e.at).1
  }

  /** The IP stays throttled: along the run, every connection of it that asks at the gate is refused. */
  predicate StaysRefused(setup: Setup, sys: Sys, events: seq<Event>, ip: RL.IpAddr)
    requires EnabledAll(setup, sys, events)
    decreases |events|
  {
    events == [] || (Refuses(setup, sys, events[0], ip) && StaysRefused(setup, Next(setup, sys, events[0]), events[1..], ip))
  }

  /** One step, while the IP is refused at the gate, spends its budget by what it records. */
  lemma StepSpends(setup: Setup, sys: Sys, e: Event, ip: RL.IpAddr)
    requires SysInv(setup, sys) && Enabled(setup, sys, e) && Refuses(setup, sys, e, ip)
    ensures Budget(setup.cfg, Next(setup, sys, e).tasks, ip) + (if RefusedFor(setup, sys, e, ip) then 1 else 0)
            <= Budget(setup.cfg, sys.tasks, ip)
  {
    var next := Next(setup, sys, e);
    if e.AcceptStream? {
      BudgetAppend(setup.cfg, sys.tasks, Task(e.peer, AtGate, false), ip);
    } else if TouchesTask(e) {
      BudgetUpdate(setup.cfg, sys.tasks, e.i, next.tasks[e.i], ip);
      if e.TakeTurn? {
        assert TaskOk(setup, sys.tasks[e.i]);
        TurnSpends(setup.cfg, sys.tasks[e.i].phase.conn, e.turn);
        EffectIsTheAnswer(setup.cfg, sys.tasks[e.i].phase.conn, e.turn);
      }
    }
  }

  lemma {:induction false} RunSpends(setup: Setup, sys: Sys, events: seq<Event>, ip: RL.IpAddr)
    requires SysInv(setup, sys) && EnabledAll(setup, sys, events) && StaysRefused(setup, sys, events, ip)
    ensures Budget(setup.cfg, RunAll(setup, sys, events).tasks, ip) + RefusedCalls(setup, sys, events, ip)
            <= Budget(setup.cfg, sys.tasks, ip)
    decreases |events|
  {
    if events != [] {
      InvStep(setup, sys, events[0]);
      StepSpends(setup, sys, events[0], ip);
      RunSpends(setup, Next(setup, sys, events[0]), events[1..], ip);
    }
  }

  lemma TimesAtMost(a: nat, b: nat, k: nat)
    requires a <= b
    ensures a * k <= b * k
  {
  }

  /**
    The system-wide throttle bound. From any reachable state, over any interleaving in which the
    IP stays throttled, whatever keeps it so: what its connections past the gate have left at
    the end and their refused calls on the way never exceed what they had left at the start, and
    so never max_connections times max(1, max_login_attempts).
   */
  lemma ThrottleBound(setup: Setup, before: seq<Event>, after: seq<Event>, ip: RL.IpAddr)
    requires EnabledAll(setup, Init(setup), before)
    requires EnabledAll(setup, RunAll(setup, Init(setup), before), after)
    requires StaysRefused(setup, RunAll(setup, Init(setup), before), after, ip)
    ensures var sys := RunAll(setup, Init(setup), before);
            && Budget(setup.cfg, RunAll(setup, sys, after).tasks, ip) + RefusedCalls(setup, sys, after, ip)
               <= Budget(setup.cfg, sys.tasks, ip)
            && Budget(setup.cfg, sys.tasks, ip) <=
               setup.maxConnections * (if setup.cfg.maxLoginAttempts == 0 then 1 else setup.cfg.maxLoginAttempts)
  {
    var sys := RunAll(setup, Init(setup), before);
    InvRun(setup, Init(setup), before);
    RunSpends(setup, sys, after, ip);
    BudgetBound(setup.cfg, sys.tasks, ip);
    TimesAtMost(CountLive(sys.tasks), setup.maxConnections, Attempts(setup.cfg));
  }

  /**
    What keeps an IP throttled without looking at the gates: while enough of its failures stay in
    the window and it is neither reset nor evicted, every connection of it is refused, and at
    the end it is still throttled.
   */
  lemma {:induction false} FailuresInWindowKeepItThrottled(setup: Setup, sys: Sys, events: seq<Event>, ip: RL.IpAddr, until: nat)
    requires EnabledAll(setup, sys, events)
    requires ThrottledUntil(setup.limits, sys.limiter, ip, until) && Undisturbed(setup, sys, events, ip, until)
    ensures StaysRefused(setup, sys, events, ip)
    ensures ThrottledUntil(setup.limits, RunAll(setup, sys, events).limiter, ip, until)
    decreases |events|
  {
    if events != [] {
      var e := events[0];
      if e.PassGate? && sys.tasks[e.i].ip == ip {
        ThrottledAtGate(setup.limits, sys.limiter, ip, e.at, until);
      }
      StaysThrottled(setup, sys, e, ip, until);
      FailuresInWindowKeepItThrottled(setup, Next(setup, sys, e), events[1..], ip, until);
    }
  }

  // ---------- The limiter inside the server ----------

  /** No event's clock reading is younger than one window. */
  predicate MatureAll(setup: Setup, sys: Sys, events: seq<Event>)
    requires EnabledAll(setup, sys, events)
    decreases |events|
  {
    events == [] ||
    (&& (ReadingOf(setup, sys, events[0]).Some? ==> events[0].at.now >= setup.limits.window)
     && MatureAll(setup, Next(setup, sys, events[0]), events[1..]))
  }

  lemma {:induction false} LimiterInvRun(setup: Setup, sys: Sys, events: seq<Event>)
    requires EnabledAll(setup, sys, events) && RL.Inv(sys.limiter)
    ensures RL.Inv(RunAll(setup, sys, events).limiter)
    decreases |events|
  {
    if events != [] {
      var op := LimiterOp(setup, sys, events[0]);
      if op.Some? {
        RL.InvStep(setup.limits, sys.limiter, op.value);
      }
      LimiterInvRun(setup, Next(setup, sys, events[0]), events[1..]);
    }
  }

  lemma {:induction false} FloorsOldRun(setup: Setup, sys: Sys, events: seq<Event>)
    requires EnabledAll(setup, sys, events) && MatureAll(setup, sys, events) && RL.FloorsOld(setup.limits, sys.limiter)
    ensures RL.FloorsOld(setup.limits, RunAll(setup, sys, events).limiter)
    decreases |events|
  {
    if events != [] {
      var op := LimiterOp(setup, sys, events[0]);
      OpIsTheAnswer(setup, sys, events[0]);
      if op.Some? {
        RL.FloorsOldStep(setup.limits, sys.limiter, op.value);
      }
      FloorsOldRun(setup, Next(setup, sys, events[0]), events[1..]);
    }
  }

  /**
    In every interleaving, a connection is refused at the gate exactly when the complete log of
    its IP, over all connections and since its last reset or eviction, has max_failures entries
    since the latest window start the IP was pruned with. Once the clock has passed one window
    that is the present window.
   */
  lemma GateReadsTheWholeHistory(setup: Setup, events: seq<Event>, ip: RL.IpAddr, at: RL.Reading)
    requires EnabledAll(setup, Init(setup), events)
    requires RunAll(setup, Init(setup), events).limiter.clock <= at.now <= at.again
    ensures var t := RunAll(setup, Init(setup), events).limiter;
            && (RL.Checked(setup.limits, t.failures, ip, at).1 <==>
                RL.ThrottledByHistory(setup.limits, t.history, ip, RL.Cutoff(at, setup.limits.window)))
            && (MatureAll(setup, Init(setup), events) && at.now >= setup.limits.window ==>
                  (RL.Checked(setup.limits, t.failures, ip, at).1 <==>
                   ip in t.history
                   && RL.CountSince(t.history[ip].log, at.now - setup.limits.window) >= setup.limits.maxFailures))
  {
    var t := RunAll(setup, Init(setup), events).limiter;
    LimiterInvRun(setup, Init(setup), events);
    RL.CheckReadsHistory(setup.limits, t, ip, at);
    if MatureAll(setup, Init(setup), events) && at.now >= setup.limits.window {
      FloorsOldRun(setup, Init(setup), events);
      RL.OldFloorsAgree(setup.limits, t, ip, at);
    }
  }

  // ---------- The limiter against the store's answers ----------

  /** The entries of a map other than that of `ip` are unchanged, except that `gone` may be removed. */
  ghost predicate SameBut<T>(m: map<RL.IpAddr, T>, m': map<RL.IpAddr, T>, ip: RL.IpAddr, gone: Option<RL.IpAddr>) {
    forall other :: other != ip && (gone.None? || other != gone.value) ==>
      (other in m <==> other in m') && (other in m ==> m'[other] == m[other])
  }

  /** What a turn has told the limiter, by the store's answer. */
  ghost predicate Told(t: RL.Tracked, t': RL.Tracked, ip: RL.IpAddr, answer: Option<Answer>, pushAt: nat, gone: Option<RL.IpAddr>) {
    match answer
    case None => t' == t
    case Some(StoreError) => t' == t
    case Some(Found(_)) =>
      && ip !in t'.failures && ip !in t'.history
      && SameBut(t.failures, t'.failures, ip, None) && SameBut(t.history, t'.history, ip, None)
    case Some(NotFound) =>
      && ip in t'.failures && t'.failures[ip] != [] && RL.Last(t'.failures[ip]) == pushAt
      && ip in t'.history && t'.history[ip].log == (if ip in t.history then t.history[ip].log else []) + [pushAt]
      && (gone.Some? ==> gone.value != ip && gone.value !in t'.failures && gone.value !in t'.history)
      && SameBut(t.failures, t'.failures, ip, gone) && SameBut(t.history, t'.history, ip, gone)
  }

  function AnswerOf(setup: Setup, sys: Sys, e: Event): Option<Answer> {
    if NewCall(setup, sys, e).Some? then Some(NewCall(setup, sys, e).value.answer) else None
  }

  /**
    In every interleaving a turn tells the limiter what the store answered it: after a refused
    call the latest failure of the IP is this one, added to its log, and an oldest entry is gone
    exactly if the IP was new and max_entries were tracked; after a successful one the IP is
    forgotten; otherwise the limiter is as before.
   */
  lemma TurnTellsLimiter(setup: Setup, events: seq<Event>, e: Event)
    requires EnabledAll(setup, Init(setup), events) && Enabled(setup, RunAll(setup, Init(setup), events), e) && e.TakeTurn?
    ensures var sys := RunAll(setup, Init(setup), events);
            var ip := sys.tasks[e.i].ip;
            var full := ip !in sys.limiter.failures && |sys.limiter.failures| >= setup.limits.maxEntries;
            Told(sys.limiter, Next(setup, sys, e).limiter, ip, AnswerOf(setup, sys, e), e.pushAt, if full then e.victim else None)
  {
    var sys := RunAll(setup, Init(setup), events);
    LimiterInvRun(setup, Init(setup), events);
    OpIsTheAnswer(setup, sys, e);
    if RefusedFor(setup, sys, e, sys.tasks[e.i].ip) {
      RecordTold(setup.limits, sys.limiter, sys.tasks[e.i].ip, e.at, e.pushAt, e.victim);
    }
  }

  lemma RecordTold(s: RL.Settings, t: RL.Tracked, ip: RL.IpAddr, at: RL.Reading, pushAt: nat, victim: Option<RL.IpAddr>)
    requires RL.Inv(t) && RL.Allowed(s, t, RL.Record(ip, at, pushAt, victim))
    ensures var full := ip !in t.failures && |t.failures| >= s.maxEntries;
            Told(t, RL.Next(s, t, RL.Record(ip, at, pushAt, victim)), ip, Some(NotFound), pushAt, if full then victim else None)
  {
    var gone := if ip !in t.failures && |t.failures| >= s.maxEntries then victim else None;
    FailuresTold(s, t.failures, ip, at, pushAt, victim, gone);
    HistoryTold(s, t, ip, at, pushAt, victim, gone);
  }

  lemma FailuresTold(s: RL.Settings, m: RL.Failures, ip: RL.IpAddr, at: RL.Reading, pushAt: nat, victim: Option<RL.IpAddr>,
                     gone: Option<RL.IpAddr>)
    requires gone == if ip !in m && |m| >= s.maxEntries then victim else None
    requires gone.Some? ==> gone.value != ip
    ensures var m' := RL.Recorded(s, m, ip, at, pushAt, victim);
            && ip in m' && m'[ip] != [] && RL.Last(m'[ip]) == pushAt
            && (gone.Some? ==> gone.value !in m')
            && SameBut(m, m', ip, gone)
  {
  }

  lemma HistoryTold(s: RL.Settings, t: RL.Tracked, ip: RL.IpAddr, at: RL.Reading, pushAt: nat, victim: Option<RL.IpAddr>,
                    gone: Option<RL.IpAddr>)
    requires gone == if ip !in t.failures && |t.failures| >= s.maxEntries then victim else None
    requires gone.Some? ==> gone.value != ip
    ensures var h := RL.HistoryRecorded(s, RL.HistoryKept(s, t, ip, victim), ip, at, pushAt);
            && ip in h && h[ip].log == (if ip in t.history then t.history[ip].log else []) + [pushAt]
            && (gone.Some? ==> gone.value !in h)
            && SameBut(t.history, h, ip, gone)
  {
  }

  /** The refused calls of each IP since its last success or eviction, by the time they were recorded at. */
  type Book = map<RL.IpAddr, seq<nat>>

  /** The book after one event. It looks at the connections, the store's answers and the book only. */
  function Booked(setup: Setup, sys: Sys, e: Event, book: Book): Book {
    match AnswerOf(setup, sys, e)
    case None => book
    case Some(StoreError) => book
    case Some(Found(_)) => book - {sys.tasks[e.i].ip}
    case Some(NotFound) =>
      var ip := sys.tasks[e.i].ip;
      var kept := if ip !in book && |book| >= setup.limits.maxEntries && e.victim.Some? then book - {e.victim.value} else book;
      kept[ip := (if ip in book then book[ip] else []) + [e.pushAt]]
  }

  function BookAfter(setup: Setup, sys: Sys, events: seq<Event>, book: Book): Book
    requires EnabledAll(setup, sys, events)
    decreases |events|
  {
    if events == [] then book
    else BookAfter(setup, Next(setup, sys, events[0]), events[1..], Booked(setup, sys, events[0], book))
  }

  /** The logs of the limiter's history are the pages of the book. */
  predicate BookAgrees(t: RL.Tracked, book: Book) {
    && t.failures.Keys == book.Keys && t.history.Keys == book.Keys
    && forall ip :: ip in book ==> t.history[ip].log == book[ip]
  }

  lemma RecordIsBooked(s: RL.Settings, t: RL.Tracked, book: Book, ip: RL.IpAddr, at: RL.Reading, pushAt: nat, victim: Option<RL.IpAddr>)
    requires BookAgrees(t, book) && RL.Inv(t) && RL.Allowed(s, t, RL.Record(ip, at, pushAt, victim))
    ensures var kept := if ip !in book && |book| >= s.maxEntries && victim.Some? then book - {victim.value} else book;
            BookAgrees(RL.Next(s, t, RL.Record(ip, at, pushAt, victim)), kept[ip := (if ip in book then book[ip] else []) + [pushAt]])
  {
    assert |book.Keys| == |t.failures.Keys|;
  }

  lemma CheckIsNotBooked(s: RL.Settings, t: RL.Tracked, book: Book, ip: RL.IpAddr, at: RL.Reading)
    requires BookAgrees(t, book)
    ensures BookAgrees(RL.Next(s, t, RL.Check(ip, at)), book)
  {
  }

  lemma OpIsBooked(s: RL.Settings, t: RL.Tracked, book: Book, op: RL.Op)
    requires BookAgrees(t, book) && RL.Inv(t) && RL.Allowed(s, t, op)
    ensures RL.Inv(RL.Next(s, t, op)) && BookAgrees(RL.Next(s, t, op), AfterOp(s, book, op))
  {
    RL.InvStep(s, t, op);
    match op
    case Check(ip, at) => CheckIsNotBooked(s, t, book, ip, at);
    case Record(ip, at, pushAt, victim) => RecordIsBooked(s, t, book, ip, at, pushAt, victim);
    case Reset(_) =>
  }

  /** The book after one operation of the limiter. */
  function AfterOp(s: RL.Settings, book: Book, op: RL.Op): Book {
    match op
    case Check(_, _) => book
    case Record(ip, _, pushAt, victim) =>
      var kept := if ip !in book && |book| >= s.maxEntries && victim.Some? then book - {victim.value} else book;
      kept[ip := (if ip in book then book[ip] else []) + [pushAt]]
    case Reset(ip) => book - {ip}
  }

  lemma BookedIsAfterOp(setup: Setup, sys: Sys, e: Event, book: Book)
    requires Enabled(setup, sys, e)
    ensures Booked(setup, sys, e, book) ==
            match LimiterOp(setup, sys, e) case None => book case Some(op) => AfterOp(setup.limits, book, op)
  {
    OpIsTheAnswer(setup, sys, e);
  }

  lemma BookStep(setup: Setup, sys: Sys, e: Event, book: Book)
    requires Enabled(setup, sys, e) && RL.Inv(sys.limiter) && BookAgrees(sys.limiter, book)
    ensures RL.Inv(Next(setup, sys, e).limiter)
    ensures BookAgrees(Next(setup, sys, e).limiter, Booked(setup, sys, e, book))
  {
    BookedIsAfterOp(setup, sys, e, book);
    LimiterOfNext(setup, sys, e);
    BookAdvances(setup.limits, sys.limiter, Next(setup, sys, e).limiter, book, Booked(setup, sys, e, book), LimiterOp(setup, sys, e));
  }

  lemma BookAdvances(s: RL.Settings, t: RL.Tracked, t': RL.Tracked, book: Book, book': Book, op: Option<RL.Op>)
    requires RL.Inv(t) && BookAgrees(t, book)
    requires match op
             case None => t' == t && book' == book
             case Some(o) => RL.Allowed(s, t, o) && t' == RL.Next(s, t, o) && book' == AfterOp(s, book, o)
    ensures RL.Inv(t') && BookAgrees(t', book')
  {
    if op.Some? {
      OpIsBooked(s, t, book, op.value);
    }
  }

  lemma LimiterOfNext(setup: Setup, sys: Sys, e: Event)
    requires Enabled(setup, sys, e)
    ensures Next(setup, sys, e).limiter == LimiterAfter(setup, sys, e)
  {
  }

  /**
    On every interleaving the log the limiter keeps for an IP has one entry for each refused call
    of its connections since the last success of one of them or the IP's last eviction.
   */
  lemma {:induction false} LogIsRefusedCalls(setup: Setup, sys: Sys, events: seq<Event>, book: Book)
    requires EnabledAll(setup, sys, events) && RL.Inv(sys.limiter) && BookAgrees(sys.limiter, book)
    ensures BookAgrees(RunAll(setup, sys, events).limiter, BookAfter(setup, sys, events, book))
    decreases |events|
  {
    if events != [] {
      BookStep(setup, sys, events[0], book);
      LogIsRefusedCalls(setup, Next(setup, sys, events[0]), events[1..], Booked(setup, sys, events[0], book));
    }
  }

  /** The book of a whole interleaving. */
  function RefusalBook(setup: Setup, events: seq<Event>): Book
    requires EnabledAll(setup, Init(setup), events)
  {
    BookAfter(setup, Init(setup), events, map[])
  }

  /** Enough refused calls of an IP are booked in the window before `now`. */
  predicate Overdrawn(limits: RL.Settings, book: Book, ip: RL.IpAddr, now: nat) {
    ip in book && RL.CountSince(book[ip], if now >= limits.window then now - limits.window else 0) >= limits.maxFailures
  }

  /**
    The gate as the outside sees it: once the clock has passed one window, and in every
    interleaving, an IP is throttled exactly when max_failures calls of its connections were
    refused within the window, since the last success of one of them or the IP's last eviction.
   */
  lemma GateCountsRefusedCalls(setup: Setup, events: seq<Event>, ip: RL.IpAddr, at: RL.Reading)
    requires EnabledAll(setup, Init(setup), events) && MatureAll(setup, Init(setup), events)
    requires RunAll(setup, Init(setup), events).limiter.clock <= at.now <= at.again && at.now >= setup.limits.window
    ensures RL.Checked(setup.limits, RunAll(setup, Init(setup), events).limiter.failures, ip, at).1 <==>
            Overdrawn(setup.limits, RefusalBook(setup, events), ip, at.now)
  {
    LogIsRefusedCalls(setup, Init(setup), events, map[]);
    GateReadsTheWholeHistory(setup, events, ip, at);
  }

  /**
    Passing the gate: the task goes on greeted if its IP is not throttled, and is refused with
    the notice and closed if it is; in either case no other task is touched.
   */
  lemma GateOutcome(setup: Setup, events: seq<Event>, i: nat, at: RL.Reading, writeOk: bool)
    requires EnabledAll(setup, Init(setup), events) && MatureAll(setup, Init(setup), events)
    requires Enabled(setup, RunAll(setup, Init(setup), events), PassGate(i, at, writeOk)) && at.now >= setup.limits.window
    ensures var sys := RunAll(setup, Init(setup), events);
            var ip := sys.tasks[i].ip;
            var start := Authenticating(None);
            var conn :=
              if Overdrawn(setup.limits, RefusalBook(setup, events), ip, at.now)
              then Conn(start, 0, 0, if writeOk then [Text(RateLimited)] else [], [], Some(ByThrottle))
              else if writeOk then Conn(start, 0, 0, [Text(Banner), Text(UsernamePrompt)], [], None)
              else Conn(start, 0, 0, [], [], Some(ByWriteFailure));
            Next(setup, sys, PassGate(i, at, writeOk)).tasks == sys.tasks[i := sys.tasks[i].(phase := Live(conn, false))]
  {
    var sys := RunAll(setup, Init(setup), events);
    GateCountsRefusedCalls(setup, events, sys.tasks[i].ip, at);
    GateTable(writeOk);
  }

  // ---------- What can always happen ----------

  /** Nothing but the clock, the permits and shutdown stands in the way of a task. */
  lemma TasksCanGoOn(setup: Setup, sys: Sys, i: nat, turn: Turn, at: RL.Reading, pushAt: nat, writeOk: bool)
    returns (victim: Option<RL.IpAddr>)
    requires i < |sys.tasks| && sys.limiter.clock <= at.now <= at.again <= pushAt
    ensures match sys.tasks[i].phase
            case AtGate => Enabled(setup, sys, PassGate(i, at, writeOk))
            case Live(conn, polled) =>
              if conn.exit.Some? then Enabled(setup, sys, Finish(i))
              else if polled then !turn.env.shutdown ==> Enabled(setup, sys, TakeTurn(i, turn, at, pushAt, victim))
              else if sys.cancelled then turn.env.shutdown ==> Enabled(setup, sys, TakeTurn(i, turn, at, pushAt, victim))
              else Enabled(setup, sys, PollTurn(i))
            case Done => true
  {
    victim := RL.AlwaysAllowed(setup.limits, sys.limiter, sys.tasks[i].ip, at, pushAt);
  }

  predicate CanReturn(setup: Setup, sys: Sys, events: seq<Event>) {
    EnabledAll(setup, sys, events) && RunAll(setup, sys, events).loop == Returned
  }

  lemma Prefixed(setup: Setup, sys: Sys, e: Event, events: seq<Event>)
    requires Enabled(setup, sys, e) && CanReturn(setup, Next(setup, sys, e), events)
    ensures CanReturn(setup, sys, [e] + events)
  {
    assert ([e] + events)[1..] == events;
  }

  /** From an aborting loop: abort and join task by task, then return. */
  lemma {:induction false} AbortingReturns(setup: Setup, sys: Sys, k: nat) returns (events: seq<Event>)
    requires sys.loop == Aborting && k <= |sys.tasks| && forall i :: 0 <= i < k ==> sys.tasks[i].joined
    requires forall i :: 0 <= i < |sys.tasks| ==> sys.tasks[i].joined ==> sys.tasks[i].phase == Done
    ensures CanReturn(setup, sys, events)
    decreases |sys.tasks| - k, if k < |sys.tasks| && sys.tasks[k].phase != Done then 1 else 0
  {
    if k == |sys.tasks| {
      events := [Return];
      assert events[1..] == [];
    } else if sys.tasks[k].joined {
      events := AbortingReturns(setup, sys, k + 1);
    } else {
      var e := if sys.tasks[k].phase == Done then Join(k) else Abort(k);
      var next := Next(setup, sys, e);
      var rest := AbortingReturns(setup, next, if sys.tasks[k].phase == Done then k + 1 else k);
      Prefixed(setup, sys, e, rest);
      events := [e] + rest;
    }
  }

  /** Shutdown cannot get stuck: from every state the server can reach it can still return. */
  lemma CanAlwaysReturn(setup: Setup, before: seq<Event>) returns (events: seq<Event>)
    requires EnabledAll(setup, Init(setup), before)
    requires !RunAll(setup, Init(setup), before).loop.Returned?
    ensures CanReturn(setup, RunAll(setup, Init(setup), before), events)
  {
    var sys := RunAll(setup, Init(setup), before);
    InvRun(setup, Init(setup), before);
    events := LoopReturns(setup, sys);
  }

  lemma {:induction false} LoopReturns(setup: Setup, sys: Sys) returns (events: seq<Event>)
    requires !sys.loop.Returned? && TasksOk(setup, sys.tasks)
    ensures CanReturn(setup, sys, events)
    decreases match sys.loop case Accepting => 4 case Head => (if sys.cancelled then 2 else 3) case Draining => 1 case _ => 0
  {
    if sys.loop == Aborting {
      assert forall i :: 0 <= i < |sys.tasks| ==> TaskOk(setup, sys.tasks[i]);
      events := AbortingReturns(setup, sys, 0);
    } else {
      var e := match sys.loop
               case Accepting => AcceptPending
               case Head => if sys.cancelled then ObserveShutdown else Cancel
               case _ => DrainTimeout;
      var rest := LoopReturns(setup, Next(setup, sys, e));
      Prefixed(setup, sys, e, rest);
      events := [e] + rest;
    }
  }
}
