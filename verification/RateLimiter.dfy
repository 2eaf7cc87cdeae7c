/** The per-IP sliding-window failure tracker: lazily pruned deques in a map of bounded size. */
module RateLimiter {
  import opened Wrappers

  datatype IpAddr = V4(bits: nat) | V6(bits: nat)

  datatype Settings = Settings(window: nat, maxFailures: nat, maxEntries: nat)

  /** The failure times of each tracked IP, oldest first. */
  type Failures = map<IpAddr, seq<nat>>

  /** The two clock readings a prune takes, one after the other. */
  datatype Reading = Reading(now: nat, again: nat)

  /** Start of the window; when it would lie before the clock's start, the second reading. */
  function Cutoff(at: Reading, window: nat): nat {
    if at.now >= window then at.now - window else at.again
  }

  function Prune(d: seq<nat>, cutoff: nat): seq<nat> {
    if d != [] && d[0] < cutoff then Prune(d[1..], cutoff) else d
  }

  function Last(d: seq<nat>): nat
    requires d != []
  {
    d[|d| - 1]
  }

  /** An answer the search for the oldest entry may give: ties are broken arbitrarily. */
  predicate IsOldest(m: Failures, victim: Option<IpAddr>) {
    match victim
    case None => forall ip :: ip in m ==> m[ip] == []
    case Some(v) => v in m && m[v] != [] && forall ip :: ip in m && m[ip] != [] ==> Last(m[v]) <= Last(m[ip])
  }

  predicate NeedsRoom(s: Settings, m: Failures, ip: IpAddr) {
    ip !in m && |m| >= s.maxEntries
  }

  function Checked(s: Settings, m: Failures, ip: IpAddr, at: Reading): (r: (Failures, bool)) {
    if ip in m then
      var d := Prune(m[ip], Cutoff(at, s.window));
      (m[ip := d], |d| >= s.maxFailures)
    else (m, false)
  }

  function Evicted(s: Settings, m: Failures, ip: IpAddr, victim: Option<IpAddr>): Failures {
    if NeedsRoom(s, m, ip) && victim.Some? then m - {victim.value} else m
  }

  function Entry(m: Failures, ip: IpAddr): seq<nat> {
    if ip in m then m[ip] else []
  }

  function Recorded(s: Settings, m: Failures, ip: IpAddr, at: Reading, pushAt: nat, victim: Option<IpAddr>): Failures {
    var kept := Evicted(s, m, ip, victim);
    kept[ip := Prune(Entry(kept, ip), Cutoff(at, s.window)) + [pushAt]]
  }

  /** Pop times before the cutoff off the front. */
  method PruneDeque(d: seq<nat>, cutoff: nat) returns (r: seq<nat>)
    ensures r == Prune(d, cutoff)
  {
    r := d;
    while r != [] && r[0] < cutoff
      invariant Prune(r, cutoff) == Prune(d, cutoff)
      decreases |r|
    {
      r := r[1..];
    }
  }

  /** The limiter object. Every method is one step under the lock; times are the clock readings it takes. */
  class AuthRateLimiter {
    const settings: Settings
    var failures: Failures

    constructor (settings: Settings)
      ensures this.settings == settings && failures == map[]
    {
      this.settings := settings;
      failures := map[];
    }

    method IsThrottled(ip: IpAddr, at: Reading) returns (throttled: bool)
      modifies this
      ensures (failures, throttled) == Checked(settings, old(failures), ip, at)
    {
      if ip in failures {
        var d := PruneDeque(failures[ip], Cutoff(at, settings.window));
        failures := failures[ip := d];
        throttled := |d| >= settings.maxFailures;
      } else {
        throttled := false;
      }
    }

    method RecordFailure(ip: IpAddr, at: Reading, pushAt: nat) returns (ghost victim: Option<IpAddr>)
      modifies this
      ensures ip !in old(failures) && |old(failures)| >= settings.maxEntries ==> IsOldest(old(failures), victim)
      ensures failures == Recorded(settings, old(failures), ip, at, pushAt, victim)
      ensures LatestFailure(settings, old(failures), failures, ip, pushAt)
    {
      victim := None;
      if ip !in failures && |failures| >= settings.maxEntries {
        var oldest := FindOldestEntry();
        victim := oldest;
        if oldest.Some? {
          failures := failures - {oldest.value};
        }
      }
      var d := if ip in failures then failures[ip] else [];
      d := PruneDeque(d, Cutoff(at, settings.window));
      failures := failures[ip := d + [pushAt]];
      RecordKeeps(settings, old(failures), ip, at, pushAt, victim);
    }

    method Reset(ip: IpAddr)
      modifies this
      ensures failures == old(failures) - {ip}
    {
      failures := failures - {ip};
    }

    /** The IP whose latest failure is earliest; entries emptied by pruning are passed over. */
    method FindOldestEntry() returns (oldest: Option<IpAddr>)
      ensures IsOldest(failures, oldest)
    {
      oldest := None;
      var todo := failures.Keys;
      while todo != {}
        invariant todo <= failures.Keys
        invariant IsOldest(map ip | ip in failures && ip !in todo :: failures[ip], oldest)
        decreases |todo|
      {
        var ip :| ip in todo;
        if failures[ip] != [] && (oldest.None? || Last(failures[ip]) < Last(failures[oldest.value])) {
          oldest := Some(ip);
        }
        todo := todo - {ip};
      }
      assert (map ip | ip in failures && ip !in todo :: failures[ip]) == failures;
    }
  }

  // ---------- The never-pruned history ----------

  datatype Op =
    | Check(ip: IpAddr, at: Reading)
    | Record(ip: IpAddr, at: Reading, pushAt: nat, victim: Option<IpAddr>)
    | Reset(ip: IpAddr)

  /** All failures of an IP since its last reset or eviction, and the latest window start it was pruned with. */
  datatype History = History(log: seq<nat>, floor: nat)

  type Histories = map<IpAddr, History>

  /** The limiter beside the histories it never had, and the latest clock reading. */
  datatype Tracked = Tracked(failures: Failures, history: Histories, clock: nat, emptied: nat)

  const START: Tracked := Tracked(map[], map[], 0, 0)

  /** The clock never runs backwards, and an eviction takes an oldest entry. */
  predicate Allowed(s: Settings, t: Tracked, op: Op) {
    match op
    case Check(_, at) => t.clock <= at.now <= at.again
    case Record(ip, at, pushAt, victim) =>
      t.clock <= at.now <= at.again <= pushAt && (NeedsRoom(s, t.failures, ip) ==> IsOldest(t.failures, victim))
    case Reset(_) => true
  }

  /** A check of a stored, nonempty deque that leaves it empty. */
  predicate Empties(s: Settings, m: Failures, op: Op) {
    op.Check? && op.ip in m && m[op.ip] != [] && Prune(m[op.ip], Cutoff(op.at, s.window)) == []
  }

  function Max(a: nat, b: nat): nat {
    if a >= b then a else b
  }

  function Pruned(h: History, cutoff: nat): History {
    History(h.log, Max(h.floor, cutoff))
  }

  /** The histories after an eviction to make room for `ip`. */
  function HistoryKept(s: Settings, t: Tracked, ip: IpAddr, victim: Option<IpAddr>): Histories {
    if NeedsRoom(s, t.failures, ip) && victim.Some? then t.history - {victim.value} else t.history
  }

  function HistoryEntry(history: Histories, ip: IpAddr): History {
    if ip in history then history[ip] else History([], 0)
  }

  function HistoryChecked(s: Settings, history: Histories, ip: IpAddr, at: Reading): Histories {
    if ip in history then history[ip := Pruned(history[ip], Cutoff(at, s.window))] else history
  }

  function HistoryRecorded(s: Settings, history: Histories, ip: IpAddr, at: Reading, pushAt: nat): Histories {
    var h := Pruned(HistoryEntry(history, ip), Cutoff(at, s.window));
    history[ip := History(h.log + [pushAt], h.floor)]
  }

  function Next(s: Settings, t: Tracked, op: Op): Tracked {
    match op
    case Check(ip, at) =>
      Tracked(Checked(s, t.failures, ip, at).0, HistoryChecked(s, t.history, ip, at), at.again,
              t.emptied + if Empties(s, t.failures, op) then 1 else 0)
    case Record(ip, at, pushAt, victim) =>
      Tracked(Recorded(s, t.failures, ip, at, pushAt, victim),
              HistoryRecorded(s, HistoryKept(s, t, ip, victim), ip, at, pushAt), pushAt, t.emptied)
    case Reset(ip) =>
      Tracked(t.failures - {ip}, t.history - {ip}, t.clock, t.emptied)
  }

  function RunOps(s: Settings, ops: seq<Op>): Tracked {
    if ops == [] then START else Next(s, RunOps(s, ops[..|ops| - 1]), ops[|ops| - 1])
  }

  predicate AllowedOps(s: Settings, ops: seq<Op>) {
    ops == [] || (AllowedOps(s, ops[..|ops| - 1]) && Allowed(s, RunOps(s, ops[..|ops| - 1]), ops[|ops| - 1]))
  }

  /** The clock is past one window, so that the start of the window exists. */
  predicate Mature(s: Settings, op: Op) {
    op.Reset? || op.at.now >= s.window
  }

  predicate Sorted(d: seq<nat>) {
    forall i, j :: 0 <= i < j < |d| ==> d[i] <= d[j]
  }

  /** How many times in `d` are at or after `from`. */
  function CountSince(d: seq<nat>, from: nat): (n: nat)
    ensures n <= |d|
  {
    if d == [] then 0 else (if d[0] >= from then 1 else 0) + CountSince(d[1..], from)
  }

  predicate AllBefore(d: seq<nat>, t: nat) {
    forall i :: 0 <= i < |d| ==> d[i] < t
  }

  predicate AllSince(d: seq<nat>, t: nat) {
    forall i :: 0 <= i < |d| ==> d[i] >= t
  }

  /** A deque is the part of the sorted log from the floor on. */
  predicate Agrees(d: seq<nat>, h: History, clock: nat) {
    && Sorted(h.log) && AllBefore(h.log, clock + 1) && h.floor <= clock
    && |d| <= |h.log|
    && Parts(h.log[..|h.log| - |d|], d, h)
  }

  /** The log is `gone`, all before the floor, and `d`, all from the floor on. */
  predicate Parts(gone: seq<nat>, d: seq<nat>, h: History) {
    h.log == gone + d && AllBefore(gone, h.floor) && AllSince(d, h.floor)
  }

  predicate AgreesAll(m: Failures, history: Histories, clock: nat) {
    m.Keys == history.Keys && forall ip :: ip in m ==> Agrees(m[ip], history[ip], clock)
  }

  predicate Inv(t: Tracked) {
    AgreesAll(t.failures, t.history, t.clock)
  }

  lemma {:induction false} PruneIsSuffix(d: seq<nat>, cutoff: nat)
    ensures var p := Prune(d, cutoff);
            && |p| <= |d| && p == d[|d| - |p|..]
            && AllBefore(d[..|d| - |p|], cutoff)
            && (p != [] ==> p[0] >= cutoff)
    decreases |d|
  {
    if d != [] && d[0] < cutoff {
      PruneIsSuffix(d[1..], cutoff);
      var n := |d| - |Prune(d, cutoff)|;
      assert d[..n] == [d[0]] + d[1..][..n - 1];
    }
  }

  lemma AgreesLater(d: seq<nat>, h: History, clock: nat, now: nat)
    requires Agrees(d, h, clock) && clock <= now
    ensures Agrees(d, h, now)
  {
  }

  lemma SuffixSorted(a: seq<nat>, d: seq<nat>)
    requires Sorted(a + d)
    ensures Sorted(d)
  {
    forall i, j | 0 <= i < j < |d|
      ensures d[i] <= d[j]
    {
      assert (a + d)[|a| + i] == d[i] && (a + d)[|a| + j] == d[j];
    }
  }

  lemma PartsPruned(gone: seq<nat>, d: seq<nat>, h: History, cutoff: nat)
    requires Parts(gone, d, h) && Sorted(h.log)
    ensures var n := |d| - |Prune(d, cutoff)|;
            n >= 0 && Parts(gone + d[..n], Prune(d, cutoff), Pruned(h, cutoff))
  {
    PruneIsSuffix(d, cutoff);
    SuffixSorted(gone, d);
    var p := Prune(d, cutoff);
    var n := |d| - |p|;
    BeforeBoth(gone, d[..n], h.floor, cutoff);
    SinceBoth(d, p, h.floor, cutoff);
    assert gone + d[..n] + p == gone + d;
  }

  lemma AgreesPruned(d: seq<nat>, h: History, clock: nat, cutoff: nat)
    requires Agrees(d, h, clock) && cutoff <= clock
    ensures Agrees(Prune(d, cutoff), Pruned(h, cutoff), clock)
  {
    var gone := h.log[..|h.log| - |d|];
    PartsPruned(gone, d, h, cutoff);
    var n := |d| - |Prune(d, cutoff)|;
    assert h.log[..|gone| + n] == gone + d[..n];
  }

  lemma BeforeBoth(a: seq<nat>, b: seq<nat>, x: nat, y: nat)
    requires AllBefore(a, x) && AllBefore(b, y)
    ensures AllBefore(a + b, Max(x, y))
  {
  }

  lemma SinceBoth(d: seq<nat>, p: seq<nat>, x: nat, y: nat)
    requires Sorted(d) && AllSince(d, x) && |p| <= |d| && p == d[|d| - |p|..] && (p != [] ==> p[0] >= y)
    ensures AllSince(p, Max(x, y))
  {
    var n := |d| - |p|;
    forall i | 0 <= i < |p|
      ensures p[i] >= Max(x, y)
    {
      assert p[i] == d[n + i] && p[0] == d[n];
    }
  }

  lemma AgreesPushed(d: seq<nat>, h: History, clock: nat, now: nat)
    requires Agrees(d, h, clock) && clock <= now
    ensures Agrees(d + [now], History(h.log + [now], h.floor), now)
  {
    var gone := h.log[..|h.log| - |d|];
    assert (h.log + [now])[..|gone|] == gone;
    assert h.log + [now] == gone + (d + [now]);
  }

  lemma AgreesStored(m: Failures, history: Histories, clock: nat, ip: IpAddr, d: seq<nat>, h: History, now: nat)
    requires AgreesAll(m, history, clock) && clock <= now && Agrees(d, h, now)
    ensures AgreesAll(m[ip := d], history[ip := h], now)
  {
    forall other | other in m && other != ip
      ensures Agrees(m[other], history[other], now)
    {
      AgreesLater(m[other], history[other], clock, now);
    }
  }

  lemma AgreesAllLater(m: Failures, history: Histories, clock: nat, now: nat)
    requires AgreesAll(m, history, clock) && clock <= now
    ensures AgreesAll(m, history, now)
  {
    forall ip | ip in m
      ensures Agrees(m[ip], history[ip], now)
    {
      AgreesLater(m[ip], history[ip], clock, now);
    }
  }

  lemma InvCheck(s: Settings, t: Tracked, op: Op)
    requires op.Check? && Inv(t) && Allowed(s, t, op)
    ensures Inv(Next(s, t, op))
  {
    if op.ip in t.failures {
      var d, h, cutoff := t.failures[op.ip], t.history[op.ip], Cutoff(op.at, s.window);
      AgreesLater(d, h, t.clock, op.at.again);
      AgreesPruned(d, h, op.at.again, cutoff);
      AgreesStored(t.failures, t.history, t.clock, op.ip, Prune(d, cutoff), Pruned(h, cutoff), op.at.again);
    } else {
      AgreesAllLater(t.failures, t.history, t.clock, op.at.again);
    }
  }

  lemma EvictedAgrees(s: Settings, t: Tracked, ip: IpAddr, victim: Option<IpAddr>)
    requires Inv(t)
    ensures AgreesAll(Evicted(s, t.failures, ip, victim), HistoryKept(s, t, ip, victim), t.clock)
  {
  }

  lemma AgreesRecorded(d: seq<nat>, h: History, clock: nat, cutoff: nat, pushAt: nat)
    requires Agrees(d, h, clock) && clock <= pushAt && cutoff <= pushAt
    ensures var p := Pruned(h, cutoff);
            Agrees(Prune(d, cutoff) + [pushAt], History(p.log + [pushAt], p.floor), pushAt)
  {
    AgreesLater(d, h, clock, pushAt);
    AgreesPruned(d, h, pushAt, cutoff);
    AgreesPushed(Prune(d, cutoff), Pruned(h, cutoff), pushAt, pushAt);
  }

  lemma InvRecord(s: Settings, t: Tracked, op: Op)
    requires op.Record? && Inv(t) && Allowed(s, t, op)
    ensures Inv(Next(s, t, op))
  {
    var kept, history := Evicted(s, t.failures, op.ip, op.victim), HistoryKept(s, t, op.ip, op.victim);
    EvictedAgrees(s, t, op.ip, op.victim);
    RecordedAgrees(s, kept, history, t.clock, op.ip, op.at, op.pushAt);
  }

  lemma RecordedAgrees(s: Settings, m: Failures, history: Histories, clock: nat, ip: IpAddr, at: Reading, pushAt: nat)
    requires AgreesAll(m, history, clock) && clock <= at.now <= at.again <= pushAt
    ensures AgreesAll(m[ip := Prune(Entry(m, ip), Cutoff(at, s.window)) + [pushAt]],
                      HistoryRecorded(s, history, ip, at, pushAt), pushAt)
  {
    var d, h, cutoff := Entry(m, ip), HistoryEntry(history, ip), Cutoff(at, s.window);
    var p := Pruned(h, cutoff);
    AgreesRecorded(d, h, clock, cutoff, pushAt);
    AgreesStored(m, history, clock, ip, Prune(d, cutoff) + [pushAt], History(p.log + [pushAt], p.floor), pushAt);
  }

  lemma InvStep(s: Settings, t: Tracked, op: Op)
    requires Inv(t) && Allowed(s, t, op)
    ensures Inv(Next(s, t, op))
  {
    match op
    case Check(_, _) => InvCheck(s, t, op);
    case Record(_, _, _, _) => InvRecord(s, t, op);
    case Reset(_) =>
  }

  lemma {:induction false} InvHolds(s: Settings, ops: seq<Op>)
    requires AllowedOps(s, ops)
    ensures Inv(RunOps(s, ops))
    decreases |ops|
  {
    if ops != [] {
      var before := ops[..|ops| - 1];
      InvHolds(s, before);
      InvStep(s, RunOps(s, before), ops[|ops| - 1]);
    }
  }

  lemma {:induction false} CountOfSorted(d: seq<nat>, from: nat)
    requires Sorted(d)
    ensures |Prune(d, from)| == CountSince(d, from)
    decreases |d|
  {
    if d != [] {
      CountOfSorted(d[1..], from);
      if d[0] >= from {
        assert Prune(d[1..], from) == d[1..] by {
          if |d| > 1 {
            assert d[1..][0] == d[1];
          }
        }
      }
    }
  }

  lemma {:induction false} CountAppend(a: seq<nat>, b: seq<nat>, from: nat)
    ensures CountSince(a + b, from) == CountSince(a, from) + CountSince(b, from)
    decreases |a|
  {
    if a == [] {
      assert a + b == b;
    } else {
      assert (a + b)[1..] == a[1..] + b;
      CountAppend(a[1..], b, from);
    }
  }

  lemma {:induction false} CountNone(d: seq<nat>, from: nat)
    requires AllBefore(d, from)
    ensures CountSince(d, from) == 0
    decreases |d|
  {
    if d != [] {
      CountNone(d[1..], from);
    }
  }

  lemma {:induction false} CountFromFloor(d: seq<nat>, floor: nat, from: nat)
    requires AllSince(d, floor)
    ensures CountSince(d, Max(floor, from)) == CountSince(d, from)
    decreases |d|
  {
    if d != [] {
      CountFromFloor(d[1..], floor, from);
    }
  }

  lemma CountOfAgreeing(d: seq<nat>, h: History, clock: nat, cutoff: nat)
    requires Agrees(d, h, clock)
    ensures Sorted(d)
    ensures |Prune(d, cutoff)| == CountSince(h.log, Max(h.floor, cutoff))
  {
    var gone := h.log[..|h.log| - |d|];
    SuffixSorted(gone, d);
    CountOfSorted(d, cutoff);
    CountFromFloor(d, h.floor, cutoff);
    CountNone(gone, Max(h.floor, cutoff));
    CountAppend(gone, d, Max(h.floor, cutoff));
  }

  /** The answer of a check, read off the histories. */
  predicate ThrottledByHistory(s: Settings, history: Histories, ip: IpAddr, cutoff: nat) {
    ip in history && CountSince(history[ip].log, Max(history[ip].floor, cutoff)) >= s.maxFailures
  }

  lemma CheckReadsHistory(s: Settings, t: Tracked, ip: IpAddr, at: Reading)
    requires Inv(t)
    ensures ip in t.failures ==> Sorted(t.failures[ip])
    ensures Checked(s, t.failures, ip, at).1 <==> ThrottledByHistory(s, t.history, ip, Cutoff(at, s.window))
  {
    if ip in t.failures {
      CountOfAgreeing(t.failures[ip], t.history[ip], t.clock, Cutoff(at, s.window));
    }
  }

  /**
    Lazy pruning against the full history, on every run with a clock that never runs backwards,
    however young: the deques are sorted, and an IP is throttled exactly when it is tracked and
    its unpruned log has enough failures since the latest window start any prune of it has used.
   */
  lemma PruningIsAFloor(s: Settings, ops: seq<Op>, ip: IpAddr, at: Reading)
    requires AllowedOps(s, ops)
    ensures var t := RunOps(s, ops);
            && (ip in t.failures <==> ip in t.history)
            && (ip in t.failures ==> Sorted(t.failures[ip]))
            && (Checked(s, t.failures, ip, at).1 <==> ThrottledByHistory(s, t.history, ip, Cutoff(at, s.window)))
  {
    InvHolds(s, ops);
    CheckReadsHistory(s, RunOps(s, ops), ip, at);
  }

  /** No prune so far has reached past one window before the clock. */
  predicate FloorsOld(s: Settings, t: Tracked) {
    forall ip :: ip in t.history ==> t.history[ip].floor + s.window <= t.clock
  }

  lemma FloorsOldStep(s: Settings, t: Tracked, op: Op)
    requires FloorsOld(s, t) && Allowed(s, t, op) && Mature(s, op)
    ensures FloorsOld(s, Next(s, t, op))
  {
    var u := Next(s, t, op);
    forall ip | ip in u.history
      ensures u.history[ip].floor + s.window <= u.clock
    {
      if ip in t.history {
        assert t.history[ip].floor + s.window <= t.clock;
      }
    }
  }

  lemma {:induction false} FloorsOldHolds(s: Settings, ops: seq<Op>)
    requires AllowedOps(s, ops) && forall i :: 0 <= i < |ops| ==> Mature(s, ops[i])
    ensures FloorsOld(s, RunOps(s, ops))
    decreases |ops|
  {
    if ops != [] {
      var before := ops[..|ops| - 1];
      FloorsOldHolds(s, before);
      FloorsOldStep(s, RunOps(s, before), ops[|ops| - 1]);
    }
  }

  /**
    Lazy pruning agrees with the full history: when the clock has passed one window, an IP is
    throttled exactly when it is tracked and its unpruned log has enough failures in the window.
   */
  lemma LazyPruningAgrees(s: Settings, ops: seq<Op>, ip: IpAddr, at: Reading)
    requires AllowedOps(s, ops) && forall i :: 0 <= i < |ops| ==> Mature(s, ops[i])
    requires RunOps(s, ops).clock <= at.now && at.now >= s.window
    ensures var t := RunOps(s, ops);
            && (ip in t.failures <==> ip in t.history)
            && (ip in t.failures ==> Sorted(t.failures[ip]))
            && (Checked(s, t.failures, ip, at).1 <==>
                ip in t.history && CountSince(t.history[ip].log, at.now - s.window) >= s.maxFailures)
  {
    InvHolds(s, ops);
    FloorsOldHolds(s, ops);
    OldFloorsAgree(s, RunOps(s, ops), ip, at);
  }

  lemma OldFloorsAgree(s: Settings, t: Tracked, ip: IpAddr, at: Reading)
    requires Inv(t) && FloorsOld(s, t) && t.clock <= at.now && at.now >= s.window
    ensures ip in t.failures <==> ip in t.history
    ensures ip in t.failures ==> Sorted(t.failures[ip])
    ensures Checked(s, t.failures, ip, at).1 <==>
            ip in t.history && CountSince(t.history[ip].log, at.now - s.window) >= s.maxFailures
  {
    CheckReadsHistory(s, t, ip, at);
  }

  /** What pruning with these readings should keep: everything from the window's start on. */
  predicate KeepsWindow(window: nat, at: Reading, d: seq<nat>) {
    |Prune(d, Cutoff(at, window))| == CountSince(d, if at.now >= window then at.now - window else 0)
  }

  /**
    Exactly when the fallback of a young clock is harmless: pruning keeps all of the last window,
    for every sorted deque, if and only if the clock has passed one window or the second reading
    is still zero.
   */
  lemma YoungClockExact(window: nat, at: Reading)
    requires at.now <= at.again
    ensures (forall d: seq<nat> :: Sorted(d) && AllBefore(d, at.now + 1) ==> KeepsWindow(window, at, d))
            <==> at.now >= window || at.again == 0
  {
    if at.now >= window || at.again == 0 {
      forall d: seq<nat> | Sorted(d)
        ensures KeepsWindow(window, at, d)
      {
        CountOfSorted(d, Cutoff(at, window));
      }
    } else {
      var d: seq<nat> := [0];
      assert Sorted(d) && AllBefore(d, at.now + 1);
      assert Prune(d, at.again) == [];
      assert CountSince(d, 0) == 1;
      assert !KeepsWindow(window, at, d);
    }
  }

  // ---------- Capacity and eviction ----------

  predicate NoneEmpty(m: Failures) {
    forall ip :: ip in m ==> m[ip] != []
  }

  predicate AllEmpty(m: Failures) {
    forall ip :: ip in m ==> m[ip] == []
  }

  function Capacity(s: Settings): nat {
    Max(1, s.maxEntries)
  }

  /**
    Recording a failure removes at most one other IP, only to make room for a new one and only
    one with a failure no later than the latest of every other nonempty entry; all other
    entries stay as they are, and the recorded IP ends with the new time.
   */
  lemma RecordEffect(s: Settings, m: Failures, ip: IpAddr, at: Reading, pushAt: nat, victim: Option<IpAddr>)
    requires NeedsRoom(s, m, ip) ==> IsOldest(m, victim)
    ensures var m' := Recorded(s, m, ip, at, pushAt, victim);
            && ip in m' && m'[ip] != [] && Last(m'[ip]) == pushAt
            && (forall other :: other != ip && other in m' ==> other in m && m'[other] == m[other])
            && (forall gone :: gone in m && gone !in m' ==>
                  && victim == Some(gone) && ip !in m && |m| >= s.maxEntries && m[gone] != []
                  && forall other :: other in m && m[other] != [] ==> Last(m[gone]) <= Last(m[other]))
            && m.Keys + {ip} - m'.Keys <= (if victim.Some? then {victim.value} else {})
            && (ip in m ==> m'.Keys == m.Keys)
  {
  }

  /** The entries of all other IPs that are still there are as they were. */
  predicate KeepsOthers(m: Failures, m': Failures, ip: IpAddr) {
    forall other :: other in m' && other != ip ==> other in m && m'[other] == m[other]
  }

  /** Below max_entries, and for an IP that is tracked already, nobody is removed, whatever the search would find. */
  lemma RoomKeepsEverybody(s: Settings, m: Failures, ip: IpAddr, at: Reading, pushAt: nat)
    requires ip in m || |m| < s.maxEntries
    ensures forall victim {:trigger Recorded(s, m, ip, at, pushAt, victim)} ::
              var m' := Recorded(s, m, ip, at, pushAt, victim);
              && m'.Keys == m.Keys + {ip} && KeepsOthers(m, m', ip)
              && m'[ip] == Prune(Entry(m, ip), Cutoff(at, s.window)) + [pushAt]
  {
  }

  /** The latest failure of `ip` is this one, all others are as they were, and with room nobody is missing. */
  predicate LatestFailure(s: Settings, m: Failures, m': Failures, ip: IpAddr, pushAt: nat) {
    && ip in m' && m'[ip] != [] && Last(m'[ip]) == pushAt
    && KeepsOthers(m, m', ip)
    && (ip in m || |m| < s.maxEntries ==> m'.Keys == m.Keys + {ip})
  }

  lemma RecordKeeps(s: Settings, m: Failures, ip: IpAddr, at: Reading, pushAt: nat, victim: Option<IpAddr>)
    ensures LatestFailure(s, m, Recorded(s, m, ip, at, pushAt, victim), ip, pushAt)
  {
  }

  /**
    At max_entries a new IP takes the place of exactly one other, whose latest failure no stored
    failure time precedes, if some deque is nonempty; if all are empty it is added.
   */
  lemma FullMapEvictsOne(s: Settings, m: Failures, ip: IpAddr, at: Reading, pushAt: nat, victim: Option<IpAddr>)
    requires ip !in m && |m| >= s.maxEntries && IsOldest(m, victim)
    ensures var m' := Recorded(s, m, ip, at, pushAt, victim);
            && m'[ip] == [pushAt] && KeepsOthers(m, m', ip)
            && if forall other :: other in m ==> m[other] == [] then m'.Keys == m.Keys + {ip}
               else exists gone :: gone in m && m[gone] != [] && m'.Keys == m.Keys - {gone} + {ip}
                      && forall other :: other in m && m[other] != [] ==> Last(m[gone]) <= Last(m[other])
  {
    assert Prune([], Cutoff(at, s.window)) + [pushAt] == [pushAt];
    NewInFull(s, m, ip, at, pushAt, victim);
    match victim
    case None =>
    case Some(gone) => assert m[gone] != [];
  }

  lemma NewInFull(s: Settings, m: Failures, ip: IpAddr, at: Reading, pushAt: nat, victim: Option<IpAddr>)
    requires ip !in m && |m| >= s.maxEntries && (victim.Some? ==> victim.value in m)
    ensures var m' := Recorded(s, m, ip, at, pushAt, victim);
            && m'[ip] == Prune([], Cutoff(at, s.window)) + [pushAt] && KeepsOthers(m, m', ip)
            && m'.Keys == (if victim.Some? then m.Keys - {victim.value} else m.Keys) + {ip}
  {
  }

  /** Some entry is always a right answer for the search, if none only because all deques are empty. */
  lemma {:induction false} OldestExists(m: Failures) returns (victim: Option<IpAddr>)
    ensures IsOldest(m, victim)
    decreases |m|
  {
    if m == map[] {
      victim := None;
    } else {
      var ip :| ip in m;
      var others := m - {ip};
      assert others.Keys == m.Keys - {ip};
      victim := OldestExists(others);
      assert forall other :: other in m && other != ip ==> other in others && others[other] == m[other];
      if m[ip] != [] && (victim.None? || Last(m[ip]) < Last(m[victim.value])) {
        victim := Some(ip);
      }
    }
  }

  /** No operation is ever ruled out, as long as the clock does not run backwards. */
  lemma AlwaysAllowed(s: Settings, t: Tracked, ip: IpAddr, at: Reading, pushAt: nat) returns (victim: Option<IpAddr>)
    requires t.clock <= at.now <= at.again <= pushAt
    ensures Allowed(s, t, Check(ip, at)) && Allowed(s, t, Reset(ip)) && Allowed(s, t, Record(ip, at, pushAt, victim))
  {
    victim := OldestExists(t.failures);
  }

  /** The operation is the IP's own reset, or the failure of a new IP that finds max_entries others and picks it. */
  predicate Removes(s: Settings, m: Failures, op: Op, ip: IpAddr) {
    || op == Reset(ip)
    || (&& op.Record? && op.ip !in m && |m| >= s.maxEntries && op.victim == Some(ip) && ip in m && m[ip] != []
        && forall other :: other in m && m[other] != [] ==> Last(m[ip]) <= Last(m[other]))
  }

  lemma LeavesInOneStep(s: Settings, t: Tracked, op: Op, ip: IpAddr)
    requires Allowed(s, t, op) && ip in t.failures
    ensures ip !in Next(s, t, op).failures <==> Removes(s, t.failures, op, ip)
  {
  }

  /**
    On every run an IP once tracked leaves the map only by its own reset, or when a failure of a
    new IP finds max_entries others tracked and picks it as an oldest.
   */
  lemma {:induction false} LeavesOnlyByResetOrEviction(s: Settings, ops: seq<Op>, k: nat, ip: IpAddr) returns (j: nat)
    requires AllowedOps(s, ops) && k <= |ops|
    requires ip in RunOps(s, ops[..k]).failures && ip !in RunOps(s, ops).failures
    ensures k <= j < |ops| && ip in RunOps(s, ops[..j]).failures && Removes(s, RunOps(s, ops[..j]).failures, ops[j], ip)
    decreases |ops|
  {
    assert ops[..|ops|] == ops;
    var n := |ops| - 1;
    var before := ops[..n];
    if ip in RunOps(s, before).failures {
      LeavesInOneStep(s, RunOps(s, before), ops[n], ip);
      j := n;
    } else {
      assert before[..k] == ops[..k];
      j := LeavesOnlyByResetOrEviction(s, before, k, ip);
      assert before[..j] == ops[..j];
    }
  }

  /** The size of the map after a failure is recorded. */
  lemma RecordSize(s: Settings, m: Failures, ip: IpAddr, at: Reading, pushAt: nat, victim: Option<IpAddr>)
    requires NeedsRoom(s, m, ip) ==> IsOldest(m, victim)
    ensures |Recorded(s, m, ip, at, pushAt, victim)| ==
            if ip in m || (|m| >= s.maxEntries && !AllEmpty(m)) then |m| else |m| + 1
  {
    var kept := Evicted(s, m, ip, victim);
    assert Recorded(s, m, ip, at, pushAt, victim).Keys == kept.Keys + {ip};
    if NeedsRoom(s, m, ip) && victim.Some? {
      assert kept.Keys == m.Keys - {victim.value};
    }
  }

  /**
    Exactly when recording a failure takes a map within max_entries over it: the IP is new, the
    map is full, and every stored deque is empty, so that there is nobody to evict.
   */
  lemma CapacityExact(s: Settings, m: Failures, ip: IpAddr, at: Reading, pushAt: nat, victim: Option<IpAddr>)
    requires NeedsRoom(s, m, ip) ==> IsOldest(m, victim)
    requires |m| <= s.maxEntries
    ensures |Recorded(s, m, ip, at, pushAt, victim)| > s.maxEntries <==>
            ip !in m && |m| == s.maxEntries && AllEmpty(m)
  {
    RecordSize(s, m, ip, at, pushAt, victim);
  }

  /** The IPs whose stored deque is empty. */
  function EmptyIps(m: Failures): set<IpAddr> {
    set ip | ip in m && m[ip] == []
  }

  predicate WithinCapacity(s: Settings, t: Tracked) {
    |t.failures| <= Max(Capacity(s), t.emptied + 1) && |EmptyIps(t.failures)| <= t.emptied
  }

  lemma SubsetSize<T>(a: set<T>, b: set<T>)
    requires a <= b
    ensures |a| <= |b|
  {
    assert b == a + (b - a);
  }

  lemma EmptyAfterRecord(s: Settings, m: Failures, ip: IpAddr, at: Reading, pushAt: nat, victim: Option<IpAddr>)
    requires NeedsRoom(s, m, ip) ==> IsOldest(m, victim)
    ensures |EmptyIps(Recorded(s, m, ip, at, pushAt, victim))| <= |EmptyIps(m)|
  {
    RecordEffect(s, m, ip, at, pushAt, victim);
    SubsetSize(EmptyIps(Recorded(s, m, ip, at, pushAt, victim)), EmptyIps(m));
  }

  lemma CapacityAfterRecord(s: Settings, t: Tracked, op: Op)
    requires op.Record? && Allowed(s, t, op) && WithinCapacity(s, t)
    ensures WithinCapacity(s, Next(s, t, op))
  {
    var m := t.failures;
    EmptyAfterRecord(s, m, op.ip, op.at, op.pushAt, op.victim);
    RecordSize(s, m, op.ip, op.at, op.pushAt, op.victim);
    if NeedsRoom(s, m, op.ip) && AllEmpty(m) {
      assert EmptyIps(m) == m.Keys;
    }
  }

  lemma CapacityAfterCheck(s: Settings, t: Tracked, op: Op)
    requires op.Check? && WithinCapacity(s, t)
    ensures WithinCapacity(s, Next(s, t, op))
  {
    var m, m' := t.failures, Next(s, t, op).failures;
    if op.ip in m {
      assert m'.Keys == m.Keys;
      assert |m'| == |m|;
      if Empties(s, m, op) {
        assert EmptyIps(m') <= EmptyIps(m) + {op.ip};
        SubsetSize(EmptyIps(m'), EmptyIps(m) + {op.ip});
      } else {
        SubsetSize(EmptyIps(m'), EmptyIps(m));
      }
    }
  }

  lemma CapacityAfterReset(s: Settings, t: Tracked, op: Op)
    requires op.Reset? && WithinCapacity(s, t)
    ensures WithinCapacity(s, Next(s, t, op))
  {
    var m, m' := t.failures, t.failures - {op.ip};
    SubsetSize(m'.Keys, m.Keys);
    SubsetSize(EmptyIps(m'), EmptyIps(m));
  }

  /**
    In every run the map holds at most max_entries IPs (one if that is zero), or one more than
    the number of checks that emptied a stored deque when that is larger; and no more deques are
    empty than were emptied so.
   */
  lemma {:induction false} CapacityBound(s: Settings, ops: seq<Op>)
    requires AllowedOps(s, ops)
    ensures var t := RunOps(s, ops);
            && (|t.failures| <= 1 || |t.failures| <= s.maxEntries || |t.failures| <= t.emptied + 1)
            && |EmptyIps(t.failures)| <= t.emptied
            && (t.emptied == 0 ==> NoneEmpty(t.failures))
    decreases |ops|
  {
    if ops != [] {
      CapacityBound(s, ops[..|ops| - 1]);
      CapacityStep(s, RunOps(s, ops[..|ops| - 1]), ops[|ops| - 1]);
    }
    if RunOps(s, ops).emptied == 0 {
      NoEmptyIps(RunOps(s, ops).failures);
    }
  }

  lemma CapacityStep(s: Settings, t: Tracked, op: Op)
    requires Allowed(s, t, op) && WithinCapacity(s, t)
    ensures WithinCapacity(s, Next(s, t, op))
  {
    match op
    case Check(_, _) => CapacityAfterCheck(s, t, op);
    case Record(_, _, _, _) => CapacityAfterRecord(s, t, op);
    case Reset(_) => CapacityAfterReset(s, t, op);
  }

  lemma NoEmptyIps(m: Failures)
    requires |EmptyIps(m)| == 0
    ensures NoneEmpty(m)
  {
    forall ip | ip in m
      ensures m[ip] != []
    {
      assert ip !in EmptyIps(m);
    }
  }

  /** The limit max_entries is exceeded once a check has emptied the only entry: nobody can be evicted. */
  lemma EmptiedEntryBreaksTheBound(a: IpAddr, b: IpAddr)
    requires a != b
    ensures var s := Settings(10, 3, 1);
            var ops := [Record(a, Reading(10, 10), 10, None), Check(a, Reading(21, 21)), Record(b, Reading(21, 21), 21, None)];
            AllowedOps(s, ops) && |RunOps(s, ops).failures| == 2
  {
    var s := Settings(10, 3, 1);
    var r, r' := Reading(10, 10), Reading(21, 21);
    var o1, o2, o3 := Record(a, r, 10, None), Check(a, r'), Record(b, r', 21, None);
    FirstFailure(s, a, r);
    EmptiedThenNew(s, a, b, Next(s, START, o1));
    RunOpsExtend(s, [], o1);
    RunOpsExtend(s, [o1], o2);
    RunOpsExtend(s, [o1, o2], o3);
    assert [] + [o1] == [o1] && [o1] + [o2] == [o1, o2] && [o1, o2] + [o3] == [o1, o2, o3];
  }

  lemma EmptiedThenNew(s: Settings, a: IpAddr, b: IpAddr, t: Tracked)
    requires a != b && s == Settings(10, 3, 1) && t.failures == map[a := [10]] && t.clock == 10
    ensures var r := Reading(21, 21);
            var t2 := Next(s, t, Check(a, r));
            && Allowed(s, t, Check(a, r)) && Allowed(s, t2, Record(b, r, 21, None))
            && |Next(s, t2, Record(b, r, 21, None)).failures| == 2
  {
    var r := Reading(21, 21);
    assert Prune([10], 11) == [] by {
      assert [10 as nat][1..] == [];
    }
    var m := Next(s, t, Check(a, r)).failures;
    assert m == map[a := []];
    RecordSize(s, m, b, r, 21, None);
  }

  lemma FirstFailure(s: Settings, a: IpAddr, r: Reading)
    requires s.maxEntries == 1 && r.now == r.again
    ensures Next(s, START, Record(a, r, r.now, None)).failures == map[a := [r.now]]
    ensures Next(s, START, Record(a, r, r.now, None)).clock == r.now
  {
    assert Prune([], Cutoff(r, s.window)) + [r.now] == [r.now];
  }

  lemma RunOpsExtend(s: Settings, ops: seq<Op>, op: Op)
    ensures RunOps(s, ops + [op]) == Next(s, RunOps(s, ops), op)
    ensures AllowedOps(s, ops + [op]) <==> AllowedOps(s, ops) && Allowed(s, RunOps(s, ops), op)
  {
    assert (ops + [op])[..|ops|] == ops;
  }
}
