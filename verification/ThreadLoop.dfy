/** The thread loop and its mailbox: a 100 ms grid of maintenance ticks that no load of
    messages may starve, and the fold of status messages into handler calls.  Everything
    the loop does not decide (clock readings, what other threads send, when stop is
    requested, when a wait returns) is a Turn chosen by the environment. */
module ThreadLoop {
  import opened Bytes
  import opened Wrappers

  const TICK: nat := 100
  const MSG_STATUS: nat := 0
  const STATUS_SIZE: nat := 4
  const IDLE: byte := 0

  datatype MailMsg = MailMsg(msgId: nat, session: Option<string>, payload: Option<seq<byte>>)

  /** One call of the thread's entry: a maintenance tick, or a message with its bytes. */
  datatype Call =
    | TimerCall(status: byte, deadline: nat, at: nat)
    | Deliver(status: byte, session: Option<string>, msgId: nat, data: seq<byte>)

  /** What the environment does during one round of the loop: whether stop has been
      requested by the top of the loop, the clock there, the clock at each test of the
      catch-up loop, whether stop has been requested by the end of the wait, the messages
      sent since the last pop, and the clock when the wait is over. */
  datatype Turn = Turn(stopTop: bool, now: nat, readings: seq<nat>, stopWait: bool, arrived: seq<MailMsg>, pop: nat)

  datatype State = State(
    nextTick: nat, queue: seq<MailMsg>, status: byte, stop: bool, over: bool, at: nat,
    calls: seq<Call>, sent: seq<MailMsg>, popped: seq<MailMsg>)

  // ---- one round, as a function ----

  function PayloadOf(m: MailMsg): seq<byte> {
    if m.payload.Some? then m.payload.value else []
  }

  predicate SetsStatus(m: MailMsg) {
    m.msgId == MSG_STATUS && m.payload.Some? && |m.payload.value| >= STATUS_SIZE
  }

  predicate Fires(s: State, t: Turn) {
    s.nextTick <= t.now
  }

  function NextTick(s: State, t: Turn): nat {
    if Fires(s, t) then s.nextTick + TICK * |t.readings| else s.nextTick
  }

  function Ticked(s: State, t: Turn, hasEntry: bool): State {
    s.(stop := s.stop || t.stopTop || t.stopWait, nextTick := NextTick(s, t), at := t.pop,
       queue := s.queue + t.arrived, sent := s.sent + t.arrived,
       calls := s.calls + if Fires(s, t) && hasEntry then [TimerCall(s.status, s.nextTick, t.now)] else [])
  }

  function Handled(s: State, hasEntry: bool): State {
    if s.queue == [] then s
    else
      var m := s.queue[0];
      var status := if SetsStatus(m) then m.payload.value[0] else s.status;
      s.(queue := s.queue[1..], popped := s.popped + [m], status := status,
         calls := s.calls + if hasEntry then [Deliver(status, m.session, m.msgId, PayloadOf(m))] else [])
  }

  function Step(s: State, t: Turn, hasEntry: bool): State {
    if s.over then s
    else if s.stop || t.stopTop then s.(stop := true, over := true)
    else Handled(Ticked(s, t, hasEntry), hasEntry)
  }

  function Exec(s: State, turns: seq<Turn>, hasEntry: bool): State
    decreases |turns|
  {
    if turns == [] then s else Exec(Step(s, turns[0], hasEntry), turns[1..], hasEntry)
  }

  function Start(start: nat): State {
    State(start + TICK, [], IDLE, false, false, start, [], [], [])
  }

  // ---- what the environment may do ----

  /** These clock readings keep the catch-up loop going to its last one and end it there. */
  predicate CaughtUp(next: nat, readings: seq<nat>) {
    && |readings| > 0
    && (forall i | 0 <= i < |readings| - 1 :: next + TICK * (i + 1) <= readings[i])
    && readings[|readings| - 1] < next + TICK * |readings|
  }

  predicate Ascending(from: nat, readings: seq<nat>) {
    && (forall i | 0 <= i < |readings| :: from <= readings[i])
    && (forall i, j | 0 <= i < j < |readings| :: readings[i] <= readings[j])
  }

  /** The clock when the wait begins. */
  function Enters(s: State, t: Turn): nat {
    if Fires(s, t) && t.readings != [] then t.readings[|t.readings| - 1] else t.now
  }

  /** The clock never runs back, and the wait ends only for a message, for a stop request,
      or at its deadline. */
  predicate Feasible(s: State, t: Turn) {
    && s.at <= t.now
    && (Fires(s, t) ==> CaughtUp(s.nextTick, t.readings) && Ascending(t.now, t.readings))
    && Enters(s, t) <= t.pop
    && (s.queue + t.arrived != [] || t.stopWait || NextTick(s, t) <= t.pop)
  }

  predicate FeasibleRun(s: State, turns: seq<Turn>, hasEntry: bool)
    decreases |turns|
  {
    turns == [] || s.over || s.stop || turns[0].stopTop
    || (Feasible(s, turns[0]) && FeasibleRun(Step(s, turns[0], hasEntry), turns[1..], hasEntry))
  }

  /** Handling a message takes at most c up to the next look at the clock, a tick at most
      d up to the last catch-up reading, and waking at most e after the deadline. */
  predicate Bounded(s: State, t: Turn, c: nat, d: nat, e: nat) {
    && t.now <= s.at + c
    && (Fires(s, t) ==> Enters(s, t) <= t.now + d)
    && (t.pop <= Enters(s, t) + e || t.pop <= NextTick(s, t) + e)
  }

  predicate BoundedRun(s: State, turns: seq<Turn>, hasEntry: bool, c: nat, d: nat, e: nat)
    decreases |turns|
  {
    turns == [] || s.over || s.stop || turns[0].stopTop
    || (Bounded(s, turns[0], c, d, e) && BoundedRun(Step(s, turns[0], hasEntry), turns[1..], hasEntry, c, d, e))
  }

  // ---- the grid ----

  function Deadlines(calls: seq<Call>): seq<nat> {
    if calls == [] then []
    else
      var last := calls[|calls| - 1];
      Deadlines(calls[..|calls| - 1]) + if last.TimerCall? then [last.deadline] else []
  }

  lemma {:induction false} DeadlinesSnoc(calls: seq<Call>, c: Call)
    ensures Deadlines(calls + [c]) == Deadlines(calls) + if c.TimerCall? then [c.deadline] else []
  {
    assert (calls + [c])[..|calls|] == calls;
  }

  predicate OnGrid(start: nat, t: nat) {
    start < t && (t - start) % 100 == 0
  }

  /** The next deadline and every fired one lie on the grid; each grid point fires at most
      once, in order, and not before its time. */
  ghost predicate GridInv(calls: seq<Call>, nextTick: nat, start: nat) {
    && OnGrid(start, nextTick)
    && (forall i | 0 <= i < |calls| && calls[i].TimerCall? ::
          calls[i].deadline <= calls[i].at && OnGrid(start, calls[i].deadline) && calls[i].deadline < nextTick)
    && (forall i, j | 0 <= i < j < |calls| && calls[i].TimerCall? && calls[j].TimerCall? ::
          calls[i].deadline < calls[j].deadline)
  }

  lemma GridPlus(start: nat, t: nat, n: nat)
    requires OnGrid(start, t) && n > 0
    ensures OnGrid(start, t + TICK * n) && t < t + TICK * n
  {
    assert (t + TICK * n - start) == (t - start) + TICK * n;
  }

  lemma GridFire(calls: seq<Call>, status: byte, next: nat, now: nat, n: nat, start: nat)
    requires GridInv(calls, next, start) && next <= now && n > 0
    ensures GridInv(calls + [TimerCall(status, next, now)], next + TICK * n, start)
    ensures GridInv(calls, next + TICK * n, start)
  {
    GridPlus(start, next, n);
  }

  lemma GridDeliver(calls: seq<Call>, c: Call, next: nat, start: nat)
    requires GridInv(calls, next, start) && c.Deliver?
    ensures GridInv(calls + [c], next, start)
  {
  }

  lemma {:induction false} GridStep(s: State, t: Turn, hasEntry: bool, start: nat)
    requires GridInv(s.calls, s.nextTick, start) && !s.over && !s.stop && !t.stopTop && Feasible(s, t)
    ensures var u := Step(s, t, hasEntry);
            GridInv(u.calls, u.nextTick, start) && t.now < u.nextTick
  {
    if Fires(s, t) {
      GridFire(s.calls, s.status, s.nextTick, t.now, |t.readings|, start);
    }
    assert s.calls + [] == s.calls;
    var mid := Ticked(s, t, hasEntry);
    assert mid.calls + [] == mid.calls;
    if mid.queue != [] && hasEntry {
      GridDeliver(mid.calls, Handled(mid, true).calls[|mid.calls|], mid.nextTick, start);
    }
  }

  /** On every run the deadlines stay on the grid start + 100 n and each fires at most once. */
  lemma {:induction false} GridOverRuns(s: State, turns: seq<Turn>, hasEntry: bool, start: nat)
    requires GridInv(s.calls, s.nextTick, start) && FeasibleRun(s, turns, hasEntry)
    ensures GridInv(Exec(s, turns, hasEntry).calls, Exec(s, turns, hasEntry).nextTick, start)
    decreases |turns|
  {
    if turns != [] {
      if !s.over && !s.stop && !turns[0].stopTop {
        GridStep(s, turns[0], hasEntry, start);
        GridOverRuns(Step(s, turns[0], hasEntry), turns[1..], hasEntry, start);
      } else {
        OverStays(Step(s, turns[0], hasEntry), turns[1..], hasEntry);
      }
    }
  }

  lemma {:induction false} OverStays(s: State, turns: seq<Turn>, hasEntry: bool)
    requires s.over
    ensures Exec(s, turns, hasEntry) == s
    decreases |turns|
  {
    if turns != [] {
      OverStays(s, turns[1..], hasEntry);
    }
  }

  // ---- punctuality ----

  ghost predicate Punctual(calls: seq<Call>, slack: nat) {
    forall i | 0 <= i < |calls| && calls[i].TimerCall? ::
      calls[i].deadline <= calls[i].at <= calls[i].deadline + slack
  }

  /** Whatever is sent, in whatever density, every tick starts within c + e of its deadline. */
  lemma {:induction false} PunctualOverRuns(s: State, turns: seq<Turn>, hasEntry: bool, c: nat, d: nat, e: nat)
    requires FeasibleRun(s, turns, hasEntry) && BoundedRun(s, turns, hasEntry, c, d, e)
    requires Punctual(s.calls, c + e) && s.at <= s.nextTick + e
    ensures Punctual(Exec(s, turns, hasEntry).calls, c + e)
    decreases |turns|
  {
    if turns != [] {
      if !s.over && !s.stop && !turns[0].stopTop {
        var mid := Ticked(s, turns[0], hasEntry);
        assert Punctual(mid.calls, c + e);
        assert mid.at <= mid.nextTick + e;
        assert Punctual(Handled(mid, hasEntry).calls, c + e);
        PunctualOverRuns(Step(s, turns[0], hasEntry), turns[1..], hasEntry, c, d, e);
      } else {
        OverStays(Step(s, turns[0], hasEntry), turns[1..], hasEntry);
      }
    }
  }

  /** A firing skips no grid point iff the clock is still before the next one when the
      handler returns. */
  lemma SkipsNothingIff(s: State, t: Turn)
    requires Fires(s, t) && Feasible(s, t)
    ensures NextTick(s, t) == s.nextTick + TICK <==> t.readings[0] < s.nextTick + TICK
  {
    if |t.readings| > 1 {
      assert s.nextTick + TICK * (0 + 1) <= t.readings[0];
    }
  }

  /** All grid points before the next deadline have fired, none was left out. */
  ghost predicate NoneSkipped(deadlines: seq<nat>, nextTick: nat, start: nat) {
    && nextTick == start + 100 * (|deadlines| + 1)
    && forall i | 0 <= i < |deadlines| :: deadlines[i] == start + 100 * (i + 1)
  }

  lemma HandledDeadlines(s: State)
    ensures Deadlines(Handled(s, true).calls) == Deadlines(s.calls) && Handled(s, true).nextTick == s.nextTick
    ensures Handled(s, true).at == s.at
  {
    if s.queue != [] {
      DeadlinesSnoc(s.calls, Handled(s, true).calls[|s.calls|]);
    }
  }

  lemma TickedDeadlines(s: State, t: Turn)
    ensures Deadlines(Ticked(s, t, true).calls)
         == Deadlines(s.calls) + if Fires(s, t) then [s.nextTick] else []
  {
    DeadlinesSnoc(s.calls, TimerCall(s.status, s.nextTick, t.now));
    assert s.calls + [] == s.calls;
  }

  lemma {:induction false} NoneSkippedStep(s: State, t: Turn, start: nat, c: nat, d: nat, e: nat)
    requires NoneSkipped(Deadlines(s.calls), s.nextTick, start) && s.at <= s.nextTick + e && c + d + e < TICK
    requires !s.over && !s.stop && !t.stopTop && Feasible(s, t) && Bounded(s, t, c, d, e)
    ensures var u := Step(s, t, true);
            NoneSkipped(Deadlines(u.calls), u.nextTick, start) && u.at <= u.nextTick + e
  {
    var mid := Ticked(s, t, true);
    TickedDeadlines(s, t);
    if Fires(s, t) {
      assert t.readings[0] <= Enters(s, t);
      SkipsNothingIff(s, t);
      assert mid.nextTick == s.nextTick + TICK;
      OneMoreFired(Deadlines(s.calls), s.nextTick, start);
    } else {
      assert Deadlines(s.calls) + [] == Deadlines(s.calls);
    }
    assert NoneSkipped(Deadlines(mid.calls), mid.nextTick, start) && mid.at <= mid.nextTick + e;
    HandledDeadlines(mid);
  }

  lemma OneMoreFired(deadlines: seq<nat>, nextTick: nat, start: nat)
    requires NoneSkipped(deadlines, nextTick, start)
    ensures NoneSkipped(deadlines + [nextTick], nextTick + TICK, start)
  {
  }

  /** With c + d + e below the period no grid point is ever skipped. */
  lemma {:induction false} NoTickLost(s: State, turns: seq<Turn>, start: nat, c: nat, d: nat, e: nat)
    requires FeasibleRun(s, turns, true) && BoundedRun(s, turns, true, c, d, e) && c + d + e < 100
    requires NoneSkipped(Deadlines(s.calls), s.nextTick, start) && s.at <= s.nextTick + e
    ensures NoneSkipped(Deadlines(Exec(s, turns, true).calls), Exec(s, turns, true).nextTick, start)
    decreases |turns|
  {
    if turns != [] {
      if !s.over && !s.stop && !turns[0].stopTop {
        NoneSkippedStep(s, turns[0], start, c, d, e);
        NoTickLost(Step(s, turns[0], true), turns[1..], start, c, d, e);
      } else {
        OverStays(Step(s, turns[0], true), turns[1..], true);
      }
    }
  }

  // ---- messages and status ----

  /** The status set by the last long enough status message, or IDLE. */
  function StatusAfter(ms: seq<MailMsg>): byte {
    if ms == [] then IDLE
    else if SetsStatus(ms[|ms| - 1]) then ms[|ms| - 1].payload.value[0]
    else StatusAfter(ms[..|ms| - 1])
  }

  lemma {:induction false} StatusSnoc(ms: seq<MailMsg>, m: MailMsg)
    ensures StatusAfter(ms + [m]) == if SetsStatus(m) then m.payload.value[0] else StatusAfter(ms)
  {
    assert (ms + [m])[..|ms|] == ms;
  }

  /** StatusAfter in words: the first byte of the last message with id 0 and at least four
      bytes, or 0 if there is none. */
  lemma {:induction false} StatusIsLast(ms: seq<MailMsg>)
    ensures (forall i | 0 <= i < |ms| :: ms[i].msgId != 0 || ms[i].payload.None? || |ms[i].payload.value| < 4)
              ==> StatusAfter(ms) == 0
    ensures forall i | && 0 <= i < |ms| && ms[i].msgId == 0 && ms[i].payload.Some? && |ms[i].payload.value| >= 4
                       && (forall j | i < j < |ms| ::
                             ms[j].msgId != 0 || ms[j].payload.None? || |ms[j].payload.value| < 4) ::
              StatusAfter(ms) == ms[i].payload.value[0]
  {
    if ms != [] && !SetsStatus(ms[|ms| - 1]) {
      StatusIsLast(ms[..|ms| - 1]);
    }
  }

  function Deliveries(calls: seq<Call>): seq<Call> {
    if calls == [] then []
    else
      var last := calls[|calls| - 1];
      Deliveries(calls[..|calls| - 1]) + if last.Deliver? then [last] else []
  }

  lemma {:induction false} DeliveriesSnoc(calls: seq<Call>, c: Call)
    ensures Deliveries(calls + [c]) == Deliveries(calls) + if c.Deliver? then [c] else []
  {
    assert (calls + [c])[..|calls|] == calls;
  }

  /** Messages handled, then messages queued, are the messages sent, in order; the calls
      are one per message handled, each with the status as of that message; a tick gets
      the status as of the last message before it. */
  ghost predicate MailInv(s: State) {
    && s.sent == s.popped + s.queue
    && s.status == StatusAfter(s.popped)
  }

  ghost predicate CallsInv(calls: seq<Call>, popped: seq<MailMsg>) {
    && |Deliveries(calls)| == |popped|
    && (forall i | 0 <= i < |popped| :: Delivers(Deliveries(calls)[i], popped[i], StatusAfter(popped[..i + 1])))
    && (forall i | 0 <= i < |calls| && calls[i].TimerCall? ::
          |Deliveries(calls[..i])| <= |popped|
          && calls[i].status == StatusAfter(popped[..|Deliveries(calls[..i])|]))
  }

  /** The call hands over the message's id, session and bytes, no bytes if it has none. */
  ghost predicate Delivers(c: Call, m: MailMsg, status: byte) {
    && c.Deliver? && c.status == status && c.msgId == m.msgId && c.session == m.session
    && c.data == (if m.payload.Some? then m.payload.value else [])
  }

  lemma {:induction false} CallsTick(calls: seq<Call>, popped: seq<MailMsg>, deadline: nat, at: nat)
    requires CallsInv(calls, popped)
    ensures CallsInv(calls + [TimerCall(StatusAfter(popped), deadline, at)], popped)
  {
    var c := TimerCall(StatusAfter(popped), deadline, at);
    DeliveriesSnoc(calls, c);
    assert Deliveries(calls + [c]) == Deliveries(calls);
    assert (calls + [c])[..|calls|] == calls && popped[..|popped|] == popped;
    forall i | 0 <= i < |calls|
      ensures (calls + [c])[i] == calls[i] && (calls + [c])[..i] == calls[..i]
    {
    }
  }

  lemma {:induction false} CallsDeliver(calls: seq<Call>, popped: seq<MailMsg>, m: MailMsg)
    requires CallsInv(calls, popped)
    ensures CallsInv(calls + [Deliver(StatusAfter(popped + [m]), m.session, m.msgId, PayloadOf(m))], popped + [m])
  {
    var c := Deliver(StatusAfter(popped + [m]), m.session, m.msgId, PayloadOf(m));
    var calls', popped' := calls + [c], popped + [m];
    DeliveriesSnoc(calls, c);
    forall i | 0 <= i < |popped'|
      ensures Delivers(Deliveries(calls')[i], popped'[i], StatusAfter(popped'[..i + 1]))
    {
      if i < |popped| {
        assert Deliveries(calls')[i] == Deliveries(calls)[i];
        assert popped'[..i + 1] == popped[..i + 1];
      } else {
        assert popped'[..i + 1] == popped';
      }
    }
    forall i | 0 <= i < |calls'| && calls'[i].TimerCall?
      ensures |Deliveries(calls'[..i])| <= |popped'|
      ensures calls'[i].status == StatusAfter(popped'[..|Deliveries(calls'[..i])|])
    {
      assert calls'[..i] == calls[..i] && calls'[i] == calls[i];
      var k := |Deliveries(calls'[..i])|;
      assert popped'[..k] == popped[..k];
    }
  }

  ghost predicate LogInv(s: State, hasEntry: bool) {
    MailInv(s) && if hasEntry then CallsInv(s.calls, s.popped) else s.calls == []
  }

  lemma TickKeepsLog(s: State, t: Turn, hasEntry: bool)
    requires LogInv(s, hasEntry)
    ensures LogInv(Ticked(s, t, hasEntry), hasEntry)
  {
    assert s.sent + t.arrived == s.popped + (s.queue + t.arrived);
    if hasEntry && Fires(s, t) {
      CallsTick(s.calls, s.popped, s.nextTick, t.now);
    } else {
      NothingMore(s.calls);
    }
  }

  lemma NothingMore(calls: seq<Call>)
    ensures calls + [] == calls
  {
  }

  lemma PopMoves(popped: seq<MailMsg>, queue: seq<MailMsg>)
    requires queue != []
    ensures popped + queue == (popped + [queue[0]]) + queue[1..]
  {
  }

  lemma HandleKeepsLog(s: State, hasEntry: bool)
    requires LogInv(s, hasEntry)
    ensures LogInv(Handled(s, hasEntry), hasEntry)
  {
    if s.queue != [] {
      var m := s.queue[0];
      PopMoves(s.popped, s.queue);
      StatusSnoc(s.popped, m);
      if hasEntry {
        CallsDeliver(s.calls, s.popped, m);
        assert Handled(s, true).calls
            == s.calls + [Deliver(StatusAfter(s.popped + [m]), m.session, m.msgId, PayloadOf(m))];
      } else {
        NothingMore(s.calls);
      }
    }
  }

  /** On every run: nothing sent is lost, duplicated or reordered, every call carries the
      status of the last status message at or before it, and the i-th delivery hands over
      the id, the session and the bytes of the i-th message handled. */
  lemma {:induction false} MailOverRuns(s: State, turns: seq<Turn>, hasEntry: bool)
    requires LogInv(s, hasEntry)
    ensures LogInv(Exec(s, turns, hasEntry), hasEntry)
    ensures hasEntry ==>
              var u := Exec(s, turns, hasEntry);
              && |Deliveries(u.calls)| == |u.popped|
              && forall i | 0 <= i < |u.popped| ::
                   var c, m := Deliveries(u.calls)[i], u.popped[i];
                   && c.Deliver? && c.msgId == m.msgId && c.session == m.session
                   && (m.payload.Some? ==> c.data == m.payload.value) && (m.payload.None? ==> c.data == [])
    decreases |turns|
  {
    if turns != [] {
      if !s.over && !s.stop && !turns[0].stopTop {
        TickKeepsLog(s, turns[0], hasEntry);
        HandleKeepsLog(Ticked(s, turns[0], hasEntry), hasEntry);
        MailOverRuns(Step(s, turns[0], hasEntry), turns[1..], hasEntry);
      } else {
        OverStays(Step(s, turns[0], hasEntry), turns[1..], hasEntry);
      }
    }
  }

  /** Once stop is requested nothing more is popped or called, except that a request that
      comes during a wait still lets that round pop one message. */
  lemma {:induction false} StopTakesAtMostOneMore(s: State, t: Turn, later: seq<Turn>, hasEntry: bool)
    requires t.stopTop || t.stopWait || s.stop
    ensures var done := Exec(s, [t] + later, hasEntry);
            && |done.popped| <= |s.popped| + 1
            && done.popped == Step(s, t, hasEntry).popped && done.calls == Step(s, t, hasEntry).calls
            && (t.stopTop || s.stop || s.over ==> done.popped == s.popped && done.calls == s.calls)
  {
    var u := Step(s, t, hasEntry);
    assert ([t] + later)[1..] == later;
    if later != [] {
      OverStays(Step(u, later[0], hasEntry), later[1..], hasEntry);
    }
  }

  /** All messages the environment sends in these rounds. */
  function Arrivals(turns: seq<Turn>): seq<MailMsg> {
    if turns == [] then [] else turns[0].arrived + Arrivals(turns[1..])
  }

  /** Stop has been requested by the top of round i. */
  ghost predicate StoppedBy(turns: seq<Turn>, i: nat)
    requires i < |turns|
  {
    turns[i].stopTop || exists j | 0 <= j < i :: turns[j].stopTop || turns[j].stopWait
  }

  /** Round k is the first one that stop keeps from running, if any is. */
  ghost predicate RunsUpTo(turns: seq<Turn>, k: nat) {
    && k <= |turns| && (k < |turns| ==> StoppedBy(turns, k))
    && forall i: nat | i < k :: !StoppedBy(turns, i)
  }

  /** The rounds before the first that finds stop requested all run, and no later one does:
      the messages sent to the thread are those of exactly these rounds. */
  lemma {:induction false} RunsUntilStop(s: State, turns: seq<Turn>, hasEntry: bool, k: nat)
    requires !s.over && !s.stop && RunsUpTo(turns, k)
    ensures var u := Exec(s, turns, hasEntry);
            u.sent == s.sent + Arrivals(turns[..k]) && (u.over <==> k < |turns|)
    decreases |turns|
  {
    if turns == [] || k == 0 {
      NothingSent(s.sent, turns);
      if turns != [] {
        assert turns[0].stopTop;
        OverStays(Step(s, turns[0], hasEntry), turns[1..], hasEntry);
      }
    } else {
      assert !StoppedBy(turns, 0);
      StepSends(s, turns[0], hasEntry);
      var u := Step(s, turns[0], hasEntry);
      if turns[0].stopWait {
        StopsNext(turns, k);
        StoppedRunEnds(u, turns[1..], hasEntry);
        NothingSent(u.sent, turns[1..]);
      } else {
        RunsOn(turns, k);
        RunsUntilStop(u, turns[1..], hasEntry, k - 1);
      }
      FirstArrivals(s.sent, turns, k);
    }
  }

  lemma StepSends(s: State, t: Turn, hasEntry: bool)
    requires !s.over && !s.stop && !t.stopTop
    ensures var u := Step(s, t, hasEntry); u.sent == s.sent + t.arrived && u.stop == t.stopWait && !u.over
  {
  }

  lemma StoppedRunEnds(s: State, turns: seq<Turn>, hasEntry: bool)
    requires s.stop && !s.over
    ensures var u := Exec(s, turns, hasEntry); u.sent == s.sent && (u.over <==> turns != [])
  {
    if turns != [] {
      OverStays(Step(s, turns[0], hasEntry), turns[1..], hasEntry);
    }
  }

  lemma FirstArrivals(sent: seq<MailMsg>, turns: seq<Turn>, k: nat)
    requires 0 < k <= |turns|
    ensures sent + Arrivals(turns[..k]) == (sent + turns[0].arrived) + Arrivals(turns[1..][..k - 1])
  {
    assert turns[..k][0] == turns[0] && turns[..k][1..] == turns[1..][..k - 1];
  }

  lemma NothingSent(sent: seq<MailMsg>, turns: seq<Turn>)
    ensures sent + Arrivals(turns[..0]) == sent
  {
  }

  lemma {:induction false} SomeLastRound(turns: seq<Turn>, n: nat)
    requires n <= |turns| && forall i: nat | i < n :: !StoppedBy(turns, i)
    ensures exists k :: RunsUpTo(turns, k)
    decreases |turns| - n
  {
    if n < |turns| && !StoppedBy(turns, n) {
      SomeLastRound(turns, n + 1);
    } else {
      assert RunsUpTo(turns, n);
    }
  }

  lemma StopsNext(turns: seq<Turn>, k: nat)
    requires RunsUpTo(turns, k) && 0 < k && turns[0].stopWait
    ensures k == 1
  {
    if k > 1 {
      assert StoppedBy(turns, 1);
      assert false;
    }
  }

  lemma RunsOn(turns: seq<Turn>, k: nat)
    requires RunsUpTo(turns, k) && 0 < k && !turns[0].stopWait
    ensures RunsUpTo(turns[1..], k - 1)
  {
    assert !StoppedBy(turns, 0);
    var rest := turns[1..];
    forall i: nat | i < |rest|
      ensures StoppedBy(rest, i) <==> StoppedBy(turns, i + 1)
    {
      assert rest[i] == turns[i + 1];
      if exists j | 0 <= j < i :: rest[j].stopTop || rest[j].stopWait {
        var j :| 0 <= j < i && (rest[j].stopTop || rest[j].stopWait);
        assert turns[j + 1] == rest[j];
      }
      if exists j | 0 <= j < i + 1 :: turns[j].stopTop || turns[j].stopWait {
        var j :| 0 <= j < i + 1 && (turns[j].stopTop || turns[j].stopWait);
        assert rest[j - 1] == turns[j];
      }
    }
  }

  // ---- from the start of the thread ----

  lemma {:induction false} TicksFromStart(start: nat, turns: seq<Turn>, hasEntry: bool, c: nat, d: nat, e: nat)
    requires FeasibleRun(Start(start), turns, hasEntry)
    ensures var s := Exec(Start(start), turns, hasEntry);
            && GridInv(s.calls, s.nextTick, start)
            && (BoundedRun(Start(start), turns, hasEntry, c, d, e) ==> Punctual(s.calls, c + e))
            && (BoundedRun(Start(start), turns, hasEntry, c, d, e) && hasEntry && c + d + e < 100
                ==> NoneSkipped(Deadlines(s.calls), s.nextTick, start))
  {
    var s := Start(start);
    GridOverRuns(s, turns, hasEntry, start);
    if BoundedRun(s, turns, hasEntry, c, d, e) {
      PunctualOverRuns(s, turns, hasEntry, c, d, e);
      if hasEntry && c + d + e < 100 {
        NoTickLost(s, turns, start, c, d, e);
      }
    }
  }

  lemma {:induction false} MailFromStart(start: nat, turns: seq<Turn>, hasEntry: bool, k: nat)
    requires RunsUpTo(turns, k)
    ensures var s := Exec(Start(start), turns, hasEntry);
            LogInv(s, hasEntry) && s.popped + s.queue == Arrivals(turns[..k])
  {
    var s := Start(start);
    assert s.sent == s.popped + s.queue;
    MailOverRuns(s, turns, hasEntry);
    RunsUntilStop(s, turns, hasEntry, k);
    assert [] + Arrivals(turns[..k]) == Arrivals(turns[..k]);
  }

  /** A thread from its start: ticks on the grid, at most once each, on time under any
      load; the messages sent until stop is found requested in order; calls with the right
      status and the messages' own bytes. */
  lemma {:induction false} ThreadFromStart(start: nat, turns: seq<Turn>, hasEntry: bool, c: nat, d: nat, e: nat, k: nat)
    requires FeasibleRun(Start(start), turns, hasEntry) && RunsUpTo(turns, k)
    ensures var s := Exec(Start(start), turns, hasEntry);
            && GridInv(s.calls, s.nextTick, start) && LogInv(s, hasEntry)
            && s.popped + s.queue == Arrivals(turns[..k])
            && (BoundedRun(Start(start), turns, hasEntry, c, d, e) ==> Punctual(s.calls, c + e))
            && (BoundedRun(Start(start), turns, hasEntry, c, d, e) && hasEntry && c + d + e < 100
                ==> NoneSkipped(Deadlines(s.calls), s.nextTick, start))
  {
    TicksFromStart(start, turns, hasEntry, c, d, e);
    MailFromStart(start, turns, hasEntry, k);
  }

  // ---- the loop itself ----

  class Mailbox {
    var queue: seq<MailMsg>

    constructor ()
      ensures queue == []
    {
      queue := [];
    }

    method Send(msgId: nat, payload: Option<seq<byte>>, session: Option<string>)
      modifies this
      ensures queue == old(queue) + [MailMsg(msgId, session, payload)]
    {
      queue := queue + [MailMsg(msgId, session, payload)];
    }

    /** The copying form: a message without data still gets an empty payload. */
    method SendCopy(msgId: nat, data: Option<seq<byte>>, session: Option<string>)
      modifies this
      ensures queue == old(queue) + [MailMsg(msgId, session, Some(if data.Some? then data.value else []))]
    {
      var payload := [];
      if data.Some? && |data.value| > 0 {
        payload := data.value;
      }
      Send(msgId, Some(payload), session);
    }

    method TryPopLocked() returns (msg: Option<MailMsg>)
      modifies this
      ensures old(queue) == [] ==> msg == None && queue == []
      ensures old(queue) != [] ==> msg == Some(old(queue)[0]) && queue == old(queue)[1..]
    {
      if queue == [] {
        return None;
      }
      msg := Some(queue[0]);
      queue := queue[1..];
    }
  }

  /** The least point next + 100 n, n > 0, behind the clock reading. */
  ghost predicate FirstGridPointAfter(reading: nat, next: nat, point: nat) {
    && reading < point && next + 100 <= point && (point - next) % 100 == 0
    && (next + 100 < point ==> point - 100 <= reading)
  }

  /** The catch-up loop: the first grid point after the last clock reading. */
  method CatchUp(next: nat, readings: seq<nat>) returns (after: nat)
    requires CaughtUp(next, readings) && Ascending(0, readings)
    ensures after == next + TICK * |readings|
    ensures FirstGridPointAfter(readings[|readings| - 1], next, after)
    ensures forall j: nat | 0 < j && readings[|readings| - 1] < next + 100 * j :: after <= next + 100 * j
  {
    after := next + TICK;
    var i := 0;
    while after <= readings[i]
      invariant i < |readings| && after == next + TICK * (i + 1)
      decreases |readings| - i
    {
      after := after + TICK;
      i := i + 1;
    }
    if i > 0 {
      assert next + TICK * (i - 1 + 1) <= readings[i - 1] <= readings[i];
    }
    assert after - next == 100 * (i + 1);
  }

  /** What a round changes, in the terms of Round's contract. */
  lemma {:induction false} RoundSays(s: State, t: Turn, hasEntry: bool)
    requires !s.over && !s.stop && !t.stopTop && Feasible(s, t)
    ensures var u := Step(s, t, hasEntry);
            var box := s.queue + t.arrived;
            var tick := if hasEntry && s.nextTick <= t.now then [TimerCall(s.status, s.nextTick, t.now)] else [];
            && u.stop == t.stopWait
            && u.queue == (if box == [] then [] else box[1..])
            && u.status == (if box != [] && box[0].msgId == 0 && box[0].payload.Some? && |box[0].payload.value| >= 4
                            then box[0].payload.value[0] else s.status)
            && u.calls == s.calls + tick +
                 if !hasEntry || box == [] then []
                 else [Deliver(u.status, box[0].session, box[0].msgId,
                               if box[0].payload.Some? then box[0].payload.value else [])]
    ensures t.now < s.nextTick ==> Step(s, t, hasEntry).nextTick == s.nextTick
    ensures s.nextTick <= t.now ==>
              FirstGridPointAfter(t.readings[|t.readings| - 1], s.nextTick, Step(s, t, hasEntry).nextTick)
  {
    assert s.calls + [] == s.calls;
    if Fires(s, t) {
      var n := |t.readings|;
      assert NextTick(s, t) - s.nextTick == 100 * n;
      if n > 1 {
        assert s.nextTick + TICK * (n - 2 + 1) <= t.readings[n - 2] <= t.readings[n - 1];
      }
    }
  }

  class ThreadCtx {
    const mailbox: Mailbox
    const hasEntry: bool
    var status: byte
    var stop: bool
    ghost var calls: seq<Call>

    constructor (hasEntry: bool)
      ensures fresh(mailbox) && mailbox.queue == [] && this.hasEntry == hasEntry
      ensures status == IDLE && !stop && calls == []
    {
      mailbox := new Mailbox();
      this.hasEntry := hasEntry;
      status, stop, calls := IDLE, false, [];
    }

    method RequestStop()
      modifies this`stop
      ensures stop
    {
      stop := true;
    }

    /** The parts of a run's state that live in the thread's objects. */
    ghost predicate Shows(s: State)
      reads this, mailbox
    {
      mailbox.queue == s.queue && status == s.status && stop == s.stop && calls == s.calls
    }

    /** The loop against one list of turns: it ends in the state the round function gives. */
    method ThreadRun(start: nat, turns: seq<Turn>) returns (nextTick: nat, ghost final: State)
      requires Shows(Start(start)) && FeasibleRun(Start(start), turns, hasEntry)
      modifies this, mailbox
      ensures final == Exec(Start(start), turns, hasEntry) && Shows(final)
    {
      nextTick := start + TICK;
      final := Start(start);
      var i := 0;
      while i < |turns|
        invariant i <= |turns| && !final.over && Shows(final) && nextTick == final.nextTick
        invariant FeasibleRun(final, turns[i..], hasEntry)
        invariant Exec(final, turns[i..], hasEntry) == Exec(Start(start), turns, hasEntry)
      {
        var t := turns[i];
        assert turns[i..][0] == t && turns[i..][1..] == turns[i + 1..];
        if t.stopTop {
          RequestStop();
        }
        if stop {
          final := Step(final, t, hasEntry);
          OverStays(final, turns[i + 1..], hasEntry);
          return;
        }
        nextTick := Round(nextTick, t, final);
        final := Step(final, t, hasEntry);
        i := i + 1;
      }
    }

    /** One round: the tick if it is due, the wait, at most one message.  A due deadline
        fires once and moves to the first grid point after the last clock reading; the
        oldest message, if there is one, is handled and no other. */
    method Round(next: nat, t: Turn, ghost s: State) returns (nextTick: nat)
      requires Shows(s) && !s.over && !stop && !t.stopTop && next == s.nextTick && Feasible(s, t)
      modifies this, mailbox
      ensures Shows(Step(s, t, hasEntry)) && nextTick == Step(s, t, hasEntry).nextTick
      ensures stop == t.stopWait
      ensures t.now < next ==> nextTick == next
      ensures next <= t.now ==> FirstGridPointAfter(t.readings[|t.readings| - 1], next, nextTick)
      ensures var box := old(mailbox.queue) + t.arrived;
              var tick := if hasEntry && next <= t.now then [TimerCall(old(status), next, t.now)] else [];
              && mailbox.queue == (if box == [] then [] else box[1..])
              && status == (if box != [] && box[0].msgId == 0 && box[0].payload.Some? && |box[0].payload.value| >= 4
                            then box[0].payload.value[0] else old(status))
              && calls == old(calls) + tick +
                   if !hasEntry || box == [] then []
                   else [Deliver(status, box[0].session, box[0].msgId,
                                 if box[0].payload.Some? then box[0].payload.value else [])]
    {
      RoundSays(s, t, hasEntry);
      nextTick := RunRound(next, t, s);
    }

    method RunRound(next: nat, t: Turn, ghost s: State) returns (nextTick: nat)
      requires Shows(s) && !s.over && !stop && !t.stopTop && next == s.nextTick && Feasible(s, t)
      modifies this, mailbox
      ensures Shows(Step(s, t, hasEntry)) && nextTick == Step(s, t, hasEntry).nextTick
    {
      nextTick := next;
      if t.now >= nextTick {
        if hasEntry {
          calls := calls + [TimerCall(status, nextTick, t.now)];
        }
        nextTick := CatchUp(nextTick, t.readings);
      }
      mailbox.queue := mailbox.queue + t.arrived;
      if t.stopWait {
        RequestStop();
      }
      ghost var mid := Ticked(s, t, hasEntry);
      assert Shows(mid) && nextTick == mid.nextTick;
      var msg := mailbox.TryPopLocked();
      if msg.None? {
        return;
      }
      var m := msg.value;
      if m.msgId == MSG_STATUS && m.payload.Some? && |m.payload.value| >= STATUS_SIZE {
        status := m.payload.value[0];
      }
      if hasEntry {
        calls := calls + [Deliver(status, m.session, m.msgId, PayloadOf(m))];
      }
    }
  }
}
