/** The control command queue: sessions and the middleware push command lines, one
    executor runs them, and shutdown answers what is left.  Each step below is one
    locked region or one unlocked stretch of one thread; any interleaving is a run.
    A job is known by its position in push order. */
module Console {
  import opened Wrappers

  const MAX_LINE: nat := 4096
  const STOPPED: string := "control stopped"

  datatype Job = Job(line: string, dds: bool, done: bool, resp: string)

  /** The executor between its loop steps: waiting, or with one job popped, run, or told. */
  datatype Executor = Idle | Popped(id: nat) | Ran(id: nat) | Told(id: nat) | Exited

  /** One response handed over for publishing; it goes out iff the middleware is up then. */
  datatype Response = Response(id: nat, text: string, up: bool)

  datatype State = State(
    jobs: seq<Job>, queue: seq<nat>, stop: bool, executor: Executor,
    taken: seq<nat>, executed: seq<nat>, responses: seq<Response>, pending: seq<nat>, cancelled: seq<nat>)

  datatype Action =
    | PushSession(line: string)
    | SubmitDds(payload: Option<string>)
    | Pop
    | Run(out: string)
    | Publish(up: bool)
    | Finish
    | Exit
    | StopBegin
    | StopAnswer

  function Start(): State {
    State([], [], false, Idle, [], [], [], [], [])
  }

  // ---- the steps ----

  predicate Accepts(s: State, payload: Option<string>) {
    payload.Some? && 0 < |payload.value| <= MAX_LINE && !s.stop
  }

  function Pushed(s: State, line: string, dds: bool): State {
    s.(jobs := s.jobs + [Job(line, dds, false, "")], queue := s.queue + [|s.jobs|])
  }

  function CtlResp(line: string, out: string): string {
    "cmd=" + line + "\n" + out
  }

  function Answered(s: State, id: nat, resp: string): seq<Job>
    requires id < |s.jobs|
  {
    s.jobs[id := s.jobs[id].(resp := resp)]
  }

  function Done(jobs: seq<Job>, id: nat): seq<Job>
    requires id < |jobs|
  {
    jobs[id := jobs[id].(done := true)]
  }

  predicate Holds(s: State, id: nat) {
    id < |s.jobs|
  }

  /** The step is possible in this state. */
  predicate Enabled(s: State, a: Action) {
    match a
    case PushSession(_) => true
    case SubmitDds(_) => true
    case Pop => s.executor.Idle? && s.queue != []
    case Run(_) => s.executor.Popped? && Holds(s, s.executor.id)
    case Publish(_) => s.executor.Ran? && Holds(s, s.executor.id) && s.jobs[s.executor.id].dds
    case Finish => (s.executor.Told? && Holds(s, s.executor.id))
                || (s.executor.Ran? && Holds(s, s.executor.id) && !s.jobs[s.executor.id].dds)
    case Exit => s.executor.Idle? && s.stop && s.queue == []
    case StopBegin => !s.stop
    case StopAnswer => s.pending != [] && Holds(s, s.pending[0])
  }

  function Step(s: State, a: Action): State
    requires Enabled(s, a)
  {
    match a
    case PushSession(line) => Pushed(s, line, false)
    case SubmitDds(payload) => if Accepts(s, payload) then Pushed(s, payload.value, true) else s
    case Pop => s.(queue := s.queue[1..], executor := Popped(s.queue[0]), taken := s.taken + [s.queue[0]])
    case Run(out) =>
      s.(jobs := Answered(s, s.executor.id, out), executor := Ran(s.executor.id),
         executed := s.executed + [s.executor.id])
    case Publish(up) =>
      var job := s.jobs[s.executor.id];
      s.(executor := Told(s.executor.id),
         responses := s.responses + [Response(s.executor.id, CtlResp(job.line, job.resp), up)])
    case Finish => s.(jobs := Done(s.jobs, s.executor.id), executor := Idle)
    case Exit => s.(executor := Exited)
    case StopBegin => s.(stop := true, pending := s.queue, queue := [])
    case StopAnswer =>
      var id := s.pending[0];
      s.(jobs := Done(Answered(s, id, STOPPED), id), pending := s.pending[1..], cancelled := s.cancelled + [id])
  }

  ghost predicate CanRun(s: State, run: seq<Action>)
    decreases |run|
  {
    run == [] || (Enabled(s, run[0]) && CanRun(Step(s, run[0]), run[1..]))
  }

  function Exec(s: State, run: seq<Action>): State
    requires CanRun(s, run)
    decreases |run|
  {
    if run == [] then s else Exec(Step(s, run[0]), run[1..])
  }

  // ---- what every step keeps ----

  function Ids(n: nat): seq<nat> {
    if n == 0 then [] else Ids(n - 1) + [n - 1]
  }

  predicate Ascending(ids: seq<nat>) {
    forall i, j | 0 <= i < j < |ids| :: ids[i] < ids[j]
  }

  /** The job the executor has popped and not yet finished. */
  function Current(e: Executor): seq<nat> {
    if e.Popped? || e.Ran? || e.Told? then [e.id] else []
  }

  function DdsOf(jobs: seq<Job>, ids: seq<nat>): seq<nat> {
    if ids == [] then []
    else
      var last := ids[|ids| - 1];
      DdsOf(jobs, ids[..|ids| - 1]) + if last < |jobs| && jobs[last].dds then [last] else []
  }

  /** Every job pushed is in exactly one place, once. */
  ghost predicate OnePlace(n: nat, queue: seq<nat>, taken: seq<nat>, pending: seq<nat>, cancelled: seq<nat>) {
    multiset(queue) + multiset(taken) + multiset(pending) + multiset(cancelled) == multiset(Ids(n))
  }

  /** ... and the executor takes jobs in push order, as does the canceller. */
  ghost predicate Places(n: nat, queue: seq<nat>, taken: seq<nat>, pending: seq<nat>, cancelled: seq<nat>) {
    && OnePlace(n, queue, taken, pending, cancelled)
    && Ascending(taken + queue) && Ascending(cancelled + pending)
  }

  /** Executor progress: all taken jobs are executed, except one just popped. */
  ghost predicate ExecutedTaken(taken: seq<nat>, executed: seq<nat>, e: Executor) {
    && taken == executed + (if e.Popped? then [e.id] else [])
    && (Current(e) != [] ==> taken != [] && taken[|taken| - 1] == Current(e)[0])
  }

  /** A job is done iff its cancellation was answered or its execution is finished. */
  ghost predicate DoneIff(jobs: seq<Job>, taken: seq<nat>, cancelled: seq<nat>, e: Executor) {
    forall id | 0 <= id < |jobs| :: jobs[id].done <==> id in cancelled || (id in taken && id !in Current(e))
  }

  function RespIds(rs: seq<Response>): seq<nat> {
    if rs == [] then [] else RespIds(rs[..|rs| - 1]) + [rs[|rs| - 1].id]
  }

  /** Responses are handed over for exactly the executed middleware jobs, in that order, one per
      job; only the job being worked on may still lack its own. */
  ghost predicate Responded(jobs: seq<Job>, executed: seq<nat>, rs: seq<Response>, e: Executor) {
    DdsOf(jobs, executed) == RespIds(rs) + (if e.Ran? && e.id < |jobs| && jobs[e.id].dds then [e.id] else [])
  }

  /** Each response carries the command line and what executing it produced. */
  ghost predicate RightText(jobs: seq<Job>, executed: seq<nat>, rs: seq<Response>) {
    forall r | r in rs :: 
      && r.id in executed && r.id < |jobs|
      && r.text == "cmd=" + jobs[r.id].line + "\n" + jobs[r.id].resp
  }

  ghost predicate CancelledText(jobs: seq<Job>, cancelled: seq<nat>) {
    forall id | id in cancelled :: id < |jobs| && jobs[id].resp == "control stopped"
  }

  /** Once stopped, only sessions still queue jobs, and before that nothing is cancelled. */
  ghost predicate StopRules(s: State) {
    && (s.stop ==> forall id | id in s.queue :: id < |s.jobs| && !s.jobs[id].dds)
    && (!s.stop ==> s.pending == [] && s.cancelled == [])
    && (s.executor.Exited? ==> s.stop)
  }

  /** The executor's account of its work. */
  ghost predicate Worked(jobs: seq<Job>, taken: seq<nat>, executed: seq<nat>, rs: seq<Response>, cancelled: seq<nat>,
                         e: Executor)
  {
    && ExecutedTaken(taken, executed, e)
    && DoneIff(jobs, taken, cancelled, e)
    && Responded(jobs, executed, rs, e)
    && RightText(jobs, executed, rs)
    && CancelledText(jobs, cancelled)
  }

  ghost predicate Inv(s: State) {
    && Places(|s.jobs|, s.queue, s.taken, s.pending, s.cancelled)
    && Worked(s.jobs, s.taken, s.executed, s.responses, s.cancelled, s.executor)
    && StopRules(s)
  }

  lemma {:induction false} IdsCount(n: nat, id: nat)
    ensures multiset(Ids(n))[id] == if id < n then 1 else 0
  {
    if n > 0 {
      IdsCount(n - 1, id);
    }
  }

  /** Being in one place means being in no other. */
  lemma Apart(n: nat, queue: seq<nat>, taken: seq<nat>, pending: seq<nat>, cancelled: seq<nat>, id: nat)
    requires OnePlace(n, queue, taken, pending, cancelled)
    ensures id < n <==> id in queue || id in taken || id in pending || id in cancelled
    ensures id in queue ==> id !in taken && id !in pending && id !in cancelled
    ensures id in taken ==> id !in pending && id !in cancelled
    ensures id in pending ==> id !in cancelled
  {
    IdsCount(n, id);
    var q, t, p, c := multiset(queue), multiset(taken), multiset(pending), multiset(cancelled);
    assert (q + t + p + c)[id] == q[id] + t[id] + p[id] + c[id];
    assert (id in q <==> id in queue) && (id in t <==> id in taken);
    assert (id in p <==> id in pending) && (id in c <==> id in cancelled);
  }

  lemma {:induction false} DdsSnoc(jobs: seq<Job>, ids: seq<nat>, id: nat)
    ensures DdsOf(jobs, ids + [id]) == DdsOf(jobs, ids) + if id < |jobs| && jobs[id].dds then [id] else []
  {
    assert (ids + [id])[..|ids|] == ids;
  }

  lemma {:induction false} RespSnoc(rs: seq<Response>, r: Response)
    ensures RespIds(rs + [r]) == RespIds(rs) + [r.id]
  {
    assert (rs + [r])[..|rs|] == rs;
  }

  /** DdsOf looks only at where the jobs came from. */
  lemma {:induction false} DdsSame(jobs: seq<Job>, jobs': seq<Job>, ids: seq<nat>)
    requires |jobs| <= |jobs'| && forall id | 0 <= id < |jobs| :: jobs[id].dds == jobs'[id].dds
    requires forall i | 0 <= i < |ids| :: ids[i] < |jobs|
    ensures DdsOf(jobs, ids) == DdsOf(jobs', ids)
    decreases |ids|
  {
    if ids != [] {
      DdsSame(jobs, jobs', ids[..|ids| - 1]);
    }
  }

  lemma PushPlace(n: nat, queue: seq<nat>, taken: seq<nat>, pending: seq<nat>, cancelled: seq<nat>)
    requires Places(n, queue, taken, pending, cancelled)
    ensures Places(n + 1, queue + [n], taken, pending, cancelled)
  {
    assert multiset(queue + [n]) == multiset(queue) + multiset{n};
    assert multiset(Ids(n + 1)) == multiset(Ids(n)) + multiset{n};
    assert taken + (queue + [n]) == (taken + queue) + [n];
    OldIds(n, queue, taken, pending, cancelled);
  }

  /** Jobs pushed so far have smaller numbers than the next one. */
  lemma OldIds(n: nat, queue: seq<nat>, taken: seq<nat>, pending: seq<nat>, cancelled: seq<nat>)
    requires Places(n, queue, taken, pending, cancelled)
    ensures forall i | 0 <= i < |taken + queue| :: (taken + queue)[i] < n
  {
    forall i | 0 <= i < |taken + queue| ensures (taken + queue)[i] < n {
      var id := (taken + queue)[i];
      assert id in taken || id in queue;
      Apart(n, queue, taken, pending, cancelled, id);
    }
  }

  lemma PopPlace(n: nat, queue: seq<nat>, taken: seq<nat>, pending: seq<nat>, cancelled: seq<nat>)
    requires Places(n, queue, taken, pending, cancelled) && queue != []
    ensures Places(n, queue[1..], taken + [queue[0]], pending, cancelled)
  {
    assert queue == [queue[0]] + queue[1..];
    assert multiset(queue) == multiset{queue[0]} + multiset(queue[1..]);
    assert (taken + [queue[0]]) + queue[1..] == taken + queue;
  }

  lemma CancelPlace(n: nat, queue: seq<nat>, taken: seq<nat>, pending: seq<nat>, cancelled: seq<nat>)
    requires Places(n, queue, taken, pending, cancelled) && pending != []
    ensures Places(n, queue, taken, pending[1..], cancelled + [pending[0]])
  {
    assert pending == [pending[0]] + pending[1..];
    assert multiset(pending) == multiset{pending[0]} + multiset(pending[1..]);
    assert (cancelled + [pending[0]]) + pending[1..] == cancelled + pending;
  }

  lemma AscendingParts(a: seq<nat>, b: seq<nat>)
    requires Ascending(a + b)
    ensures Ascending(a) && Ascending(b)
  {
    forall i, j | 0 <= i < j < |a| ensures a[i] < a[j] {
      assert (a + b)[i] < (a + b)[j];
    }
    forall i, j | 0 <= i < j < |b| ensures b[i] < b[j] {
      assert (a + b)[|a| + i] < (a + b)[|a| + j];
    }
  }

  lemma StopPlace(n: nat, queue: seq<nat>, taken: seq<nat>)
    requires Places(n, queue, taken, [], [])
    ensures Places(n, [], taken, queue, [])
  {
    AscendingParts(taken, queue);
    assert taken + [] == taken && [] + queue == queue;
  }

  lemma TakenInRange(s: State)
    requires Inv(s)
    ensures forall id | id in s.taken :: id < |s.jobs|
    ensures forall id | id in s.executed :: id in s.taken
    ensures forall i | 0 <= i < |s.executed| :: s.executed[i] < |s.jobs|
    ensures forall c | c in Current(s.executor) :: c in s.taken
  {
    forall id | id in s.taken ensures id < |s.jobs| {
      Apart(|s.jobs|, s.queue, s.taken, s.pending, s.cancelled, id);
    }
    forall i | 0 <= i < |s.executed| ensures s.executed[i] in s.taken {
      assert s.taken[i] == s.executed[i];
    }
  }

  lemma PushWorked(jobs: seq<Job>, taken: seq<nat>, executed: seq<nat>, rs: seq<Response>, cancelled: seq<nat>,
                   e: Executor, line: string, dds: bool)
    requires Worked(jobs, taken, executed, rs, cancelled, e)
    requires forall i | 0 <= i < |executed| :: executed[i] < |jobs|
    requires |jobs| !in taken && |jobs| !in cancelled && forall c | c in Current(e) :: c < |jobs|
    ensures Worked(jobs + [Job(line, dds, false, "")], taken, executed, rs, cancelled, e)
  {
    DdsSame(jobs, jobs + [Job(line, dds, false, "")], executed);
  }

  lemma PushKeeps(s: State, line: string, dds: bool)
    requires Inv(s) && (dds ==> !s.stop)
    ensures Inv(Pushed(s, line, dds))
  {
    var n := |s.jobs|;
    PushPlace(n, s.queue, s.taken, s.pending, s.cancelled);
    TakenInRange(s);
    Apart(n, s.queue, s.taken, s.pending, s.cancelled, n);
    PushWorked(s.jobs, s.taken, s.executed, s.responses, s.cancelled, s.executor, line, dds);
    QueueInRange(s);
    PushStopRules(s, line, dds);
  }

  lemma PushStopRules(s: State, line: string, dds: bool)
    requires StopRules(s) && (dds ==> !s.stop) && forall id | id in s.queue :: id < |s.jobs|
    ensures StopRules(Pushed(s, line, dds))
  {
  }

  lemma QueueInRange(s: State)
    requires Inv(s)
    ensures forall id | id in s.queue :: id < |s.jobs|
  {
    forall id | id in s.queue ensures id < |s.jobs| {
      Apart(|s.jobs|, s.queue, s.taken, s.pending, s.cancelled, id);
    }
  }

  lemma PopWorked(jobs: seq<Job>, taken: seq<nat>, executed: seq<nat>, rs: seq<Response>, cancelled: seq<nat>, id: nat)
    requires Worked(jobs, taken, executed, rs, cancelled, Idle) && id !in taken && id !in cancelled
    ensures Worked(jobs, taken + [id], executed, rs, cancelled, Popped(id))
  {
    assert executed + [] == executed;
  }

  lemma PopKeeps(s: State)
    requires Inv(s) && Enabled(s, Pop)
    ensures Inv(Step(s, Pop))
  {
    PopPlace(|s.jobs|, s.queue, s.taken, s.pending, s.cancelled);
    Apart(|s.jobs|, s.queue, s.taken, s.pending, s.cancelled, s.queue[0]);
    PopWorked(s.jobs, s.taken, s.executed, s.responses, s.cancelled, s.queue[0]);
  }

  /** The job just popped has not been executed before. */
  lemma FreshPop(taken: seq<nat>, executed: seq<nat>, id: nat)
    requires taken == executed + [id] && Ascending(taken)
    ensures id !in executed
  {
    forall i | 0 <= i < |executed| ensures executed[i] != id {
      assert taken[i] == executed[i] && taken[|executed|] == id;
    }
  }

  /** Only job id differs, and its source does not. */
  ghost predicate OnlyJob(jobs: seq<Job>, after: seq<Job>, id: nat) {
    && id < |jobs| == |after| && after[id].line == jobs[id].line && after[id].dds == jobs[id].dds
    && forall k | 0 <= k < |jobs| && k != id :: after[k] == jobs[k]
  }

  lemma TextsKept(jobs: seq<Job>, after: seq<Job>, executed: seq<nat>, rs: seq<Response>, cancelled: seq<nat>, id: nat)
    requires OnlyJob(jobs, after, id) && RightText(jobs, executed, rs) && CancelledText(jobs, cancelled)
    requires id in executed || id in cancelled ==> after[id].resp == jobs[id].resp
    ensures RightText(after, executed, rs) && CancelledText(after, cancelled)
  {
  }

  lemma RespondedKept(jobs: seq<Job>, after: seq<Job>, executed: seq<nat>, rs: seq<Response>, e: Executor, id: nat)
    requires OnlyJob(jobs, after, id) && Responded(jobs, executed, rs, e)
    requires forall i | 0 <= i < |executed| :: executed[i] < |jobs|
    ensures Responded(after, executed, rs, e)
  {
    DdsSame(jobs, after, executed);
  }

  lemma RespondedRun(jobs: seq<Job>, executed: seq<nat>, rs: seq<Response>, id: nat)
    requires Responded(jobs, executed, rs, Popped(id))
    ensures Responded(jobs, executed + [id], rs, Ran(id))
  {
    DdsSnoc(jobs, executed, id);
    assert RespIds(rs) + [] == RespIds(rs);
  }

  lemma RespondedFinish(jobs: seq<Job>, executed: seq<nat>, rs: seq<Response>, e: Executor, id: nat)
    requires Responded(jobs, executed, rs, e) && id < |jobs|
    requires e == Told(id) || (e == Ran(id) && !jobs[id].dds)
    ensures Responded(jobs, executed, rs, Idle)
  {
  }

  lemma StopRulesKept(s: State, u: State, id: nat)
    requires Inv(s) && OnlyJob(s.jobs, u.jobs, id)
    requires u.stop == s.stop && u.queue == s.queue && !u.executor.Exited?
    requires u.stop || (u.pending == s.pending && u.cancelled == s.cancelled)
    ensures StopRules(u)
  {
    QueueInRange(s);
  }

  /** A popped job is new to the log of executed ones, and was not cancelled. */
  lemma PoppedIsNew(s: State)
    requires Inv(s) && s.executor.Popped?
    ensures s.executor.id !in s.executed && s.executor.id !in s.cancelled
  {
    AscendingParts(s.taken, s.queue);
    FreshPop(s.taken, s.executed, s.executor.id);
    Apart(|s.jobs|, s.queue, s.taken, s.pending, s.cancelled, s.executor.id);
  }

  lemma RunKeeps(s: State, out: string)
    requires Inv(s) && Enabled(s, Run(out))
    ensures Inv(Step(s, Run(out)))
  {
    var id := s.executor.id;
    var u := Step(s, Run(out));
    TakenInRange(s);
    PoppedIsNew(s);
    assert OnlyJob(s.jobs, u.jobs, id);
    TextsKept(s.jobs, u.jobs, s.executed, s.responses, s.cancelled, id);
    RespondedKept(s.jobs, u.jobs, s.executed, s.responses, s.executor, id);
    RespondedRun(u.jobs, s.executed, s.responses, id);
    RunWorked(s.jobs, u.jobs, s.taken, s.executed, s.responses, s.cancelled, id);
    StopRulesKept(s, u, id);
  }

  lemma RunWorked(jobs: seq<Job>, after: seq<Job>, taken: seq<nat>, executed: seq<nat>, rs: seq<Response>,
                  cancelled: seq<nat>, id: nat)
    requires OnlyJob(jobs, after, id) && after[id].done == jobs[id].done
    requires ExecutedTaken(taken, executed, Popped(id)) && DoneIff(jobs, taken, cancelled, Popped(id))
    requires RightText(after, executed, rs)
    ensures ExecutedTaken(taken, executed + [id], Ran(id)) && DoneIff(after, taken, cancelled, Ran(id))
    ensures RightText(after, executed + [id], rs)
  {
    assert executed + [id] + [] == executed + [id];
  }

  lemma PublishWorked(jobs: seq<Job>, executed: seq<nat>, rs: seq<Response>, id: nat, up: bool)
    requires id < |jobs| && jobs[id].dds && id in executed
    requires Responded(jobs, executed, rs, Ran(id)) && RightText(jobs, executed, rs)
    ensures var told := rs + [Response(id, CtlResp(jobs[id].line, jobs[id].resp), up)];
            Responded(jobs, executed, told, Told(id)) && RightText(jobs, executed, told)
  {
    RespSnoc(rs, Response(id, CtlResp(jobs[id].line, jobs[id].resp), up));
    assert RespIds(rs) + [id] + [] == RespIds(rs) + [id];
  }

  lemma PublishKeeps(s: State, up: bool)
    requires Inv(s) && Enabled(s, Publish(up))
    ensures Inv(Step(s, Publish(up)))
  {
    assert s.executed + [] == s.executed;
    PublishWorked(s.jobs, s.executed, s.responses, s.executor.id, up);
  }

  lemma DoneFinish(jobs: seq<Job>, after: seq<Job>, taken: seq<nat>, cancelled: seq<nat>, e: Executor, id: nat)
    requires OnlyJob(jobs, after, id) && DoneIff(jobs, taken, cancelled, e) && Current(e) == [id]
    requires id in taken && after[id].done
    ensures DoneIff(after, taken, cancelled, Idle)
  {
  }

  /** What finishing leaves of the executor's account. */
  lemma FinishWorked(jobs: seq<Job>, after: seq<Job>, taken: seq<nat>, executed: seq<nat>, rs: seq<Response>,
                     cancelled: seq<nat>, e: Executor, id: nat)
    requires Worked(jobs, taken, executed, rs, cancelled, e) && OnlyJob(jobs, after, id)
    requires e == Told(id) || (e == Ran(id) && !jobs[id].dds)
    requires after[id].done && after[id].resp == jobs[id].resp && id in taken
    requires forall i | 0 <= i < |executed| :: executed[i] < |jobs|
    ensures Worked(after, taken, executed, rs, cancelled, Idle)
  {
    assert Current(e) == [id];
    DoneFinish(jobs, after, taken, cancelled, e, id);
    TextsKept(jobs, after, executed, rs, cancelled, id);
    RespondedFinish(jobs, executed, rs, e, id);
    RespondedKept(jobs, after, executed, rs, Idle, id);
    assert executed + [] == executed;
  }

  lemma FinishKeeps(s: State)
    requires Inv(s) && Enabled(s, Finish)
    ensures Inv(Step(s, Finish))
  {
    var id, u := s.executor.id, Step(s, Finish);
    TakenInRange(s);
    assert id in Current(s.executor);
    assert OnlyJob(s.jobs, u.jobs, id);
    FinishWorked(s.jobs, u.jobs, s.taken, s.executed, s.responses, s.cancelled, s.executor, id);
    StopRulesKept(s, u, id);
  }

  lemma CancelWorked(jobs: seq<Job>, after: seq<Job>, taken: seq<nat>, cancelled: seq<nat>, e: Executor, id: nat)
    requires OnlyJob(jobs, after, id) && after[id].done && after[id].resp == STOPPED
    requires DoneIff(jobs, taken, cancelled, e) && CancelledText(after, cancelled)
    ensures DoneIff(after, taken, cancelled + [id], e) && CancelledText(after, cancelled + [id])
  {
  }

  lemma StopAnswerKeeps(s: State)
    requires Inv(s) && Enabled(s, StopAnswer)
    ensures Inv(Step(s, StopAnswer))
  {
    var id := s.pending[0];
    var u := Step(s, StopAnswer);
    TakenInRange(s);
    CancelPlace(|s.jobs|, s.queue, s.taken, s.pending, s.cancelled);
    Apart(|s.jobs|, s.queue, s.taken, s.pending, s.cancelled, id);
    assert OnlyJob(s.jobs, u.jobs, id);
    TextsKept(s.jobs, u.jobs, s.executed, s.responses, s.cancelled, id);
    RespondedKept(s.jobs, u.jobs, s.executed, s.responses, s.executor, id);
    CancelWorked(s.jobs, u.jobs, s.taken, s.cancelled, s.executor, id);
    if !s.executor.Exited? {
      StopRulesKept(s, u, id);
    } else {
      QueueInRange(s);
    }
  }

  /** The invariant survives every step of every thread. */
  lemma StepKeeps(s: State, a: Action)
    requires Inv(s) && Enabled(s, a)
    ensures Inv(Step(s, a))
  {
    match a
    case PushSession(line) => PushKeeps(s, line, false);
    case SubmitDds(payload) =>
      if Accepts(s, payload) {
        PushKeeps(s, payload.value, true);
      }
    case Pop => PopKeeps(s);
    case Run(out) => RunKeeps(s, out);
    case Publish(up) => PublishKeeps(s, up);
    case Finish => FinishKeeps(s);
    case Exit =>
      assert s.executed + [] == s.executed;
    case StopBegin => StopPlace(|s.jobs|, s.queue, s.taken);
    case StopAnswer => StopAnswerKeeps(s);
  }

  lemma {:induction false} RunsKeep(s: State, run: seq<Action>)
    requires Inv(s) && CanRun(s, run)
    ensures Inv(Exec(s, run))
    decreases |run|
  {
    if run != [] {
      StepKeeps(s, run[0]);
      RunsKeep(Step(s, run[0]), run[1..]);
    }
  }

  // ---- what it means for whole runs ----

  ghost predicate Settled(s: State) {
    s.executor.Exited? && s.pending == []
  }

  /** Once the executor has left and the canceller is through, a job is unfinished iff it
      is still queued, and only a session's job can be. */
  lemma SettledMeans(s: State)
    requires Inv(s) && Settled(s)
    ensures forall id | 0 <= id < |s.jobs| :: !s.jobs[id].done <==> id in s.queue
    ensures forall id | 0 <= id < |s.jobs| && s.jobs[id].dds :: s.jobs[id].done
  {
    forall id | 0 <= id < |s.jobs| ensures !s.jobs[id].done <==> id in s.queue {
      Apart(|s.jobs|, s.queue, s.taken, s.pending, s.cancelled, id);
    }
  }

  /** Every interleaving: each job is in exactly one place, once; jobs run at most once and
      in push order, none is both run and cancelled, the cancelled ones are told so, one
      right response is handed over for each executed middleware job and for nothing else,
      and none of the middleware's jobs is left over. */
  lemma {:induction false} ControlProtocol(run: seq<Action>)
    requires CanRun(Start(), run)
    ensures var s := Exec(Start(), run);
            && OnePlace(|s.jobs|, s.queue, s.taken, s.pending, s.cancelled)
            && Ascending(s.executed) && s.executed <= s.taken
            && (forall id | id in s.executed :: id !in s.pending && id !in s.cancelled)
            && (forall id | id in s.cancelled :: id < |s.jobs| && s.jobs[id].done && s.jobs[id].resp == "control stopped")
            && RightText(s.jobs, s.executed, s.responses)
            && (!s.executor.Ran? ==> RespIds(s.responses) == DdsOf(s.jobs, s.executed))
            && (Settled(s) ==> forall id | 0 <= id < |s.jobs| && s.jobs[id].dds :: s.jobs[id].done)
  {
    var s := Exec(Start(), run);
    StartKeeps();
    RunsKeep(Start(), run);
    AllApart(s);
    AscendingParts(s.taken, s.queue);
    AscendingParts(s.executed, if s.executor.Popped? then [s.executor.id] else []);
    CancelledDone(s);
    assert RespIds(s.responses) + [] == RespIds(s.responses);
    if Settled(s) {
      SettledMeans(s);
    }
  }

  lemma StartKeeps()
    ensures Inv(Start())
  {
    var none: seq<nat> := [];
    assert none + none == none;
    assert multiset(Ids(0)) == multiset(none) + multiset(none) + multiset(none) + multiset(none);
  }

  lemma AllApart(s: State)
    requires Inv(s)
    ensures forall id: nat :: id < |s.jobs| <==> id in s.queue || id in s.taken || id in s.pending || id in s.cancelled
    ensures forall id | id in s.taken :: id !in s.queue && id !in s.pending && id !in s.cancelled
  {
    forall id: nat
      ensures id < |s.jobs| <==> id in s.queue || id in s.taken || id in s.pending || id in s.cancelled
      ensures id in s.taken ==> id !in s.queue && id !in s.pending && id !in s.cancelled
    {
      Apart(|s.jobs|, s.queue, s.taken, s.pending, s.cancelled, id);
    }
  }

  lemma CancelledDone(s: State)
    requires Inv(s)
    ensures forall id | id in s.cancelled :: id < |s.jobs| && s.jobs[id].done && s.jobs[id].resp == "control stopped"
  {
  }

  /** The queue holds exactly the jobs from first on. */
  ghost predicate QueuedFrom(first: nat, n: nat, queue: seq<nat>) {
    first <= n && forall id: nat | id < n :: id in queue <==> first <= id
  }

  lemma QueuedOneMore(first: nat, n: nat, queue: seq<nat>)
    requires QueuedFrom(first, n, queue)
    ensures QueuedFrom(first, n + 1, queue + [n])
  {
  }

  lemma AfterExitStep(s: State, a: Action, first: nat)
    requires Inv(s) && Enabled(s, a) && s.executor.Exited? && QueuedFrom(first, |s.jobs|, s.queue)
    ensures var u := Step(s, a); u.executor.Exited? && |s.jobs| <= |u.jobs| && QueuedFrom(first, |u.jobs|, u.queue)
  {
    QueuedOneMore(first, |s.jobs|, s.queue);
  }

  /** After the executor has left nothing is taken and nothing newly queued is cancelled. */
  lemma {:induction false} AfterExit(s: State, run: seq<Action>, first: nat)
    requires Inv(s) && CanRun(s, run) && s.executor.Exited? && QueuedFrom(first, |s.jobs|, s.queue)
    ensures var u := Exec(s, run); u.executor.Exited? && |s.jobs| <= |u.jobs| && QueuedFrom(first, |u.jobs|, u.queue)
    decreases |run|
  {
    if run != [] {
      StepKeeps(s, run[0]);
      AfterExitStep(s, run[0], first);
      AfterExit(Step(s, run[0]), run[1..], first);
    }
  }

  lemma {:induction false} ExecConcat(s: State, a: seq<Action>, b: seq<Action>)
    requires CanRun(s, a + b)
    ensures CanRun(s, a) && CanRun(Exec(s, a), b) && Exec(s, a + b) == Exec(Exec(s, a), b)
    decreases |a|
  {
    if a == [] {
      assert [] + b == b;
    } else {
      assert (a + b)[0] == a[0] && (a + b)[1..] == a[1..] + b;
      ExecConcat(Step(s, a[0]), a[1..], b);
    }
  }

  /** Exactly when a job is left hanging: the push of a session checks no stop flag, so a
      job is never finished iff it was pushed after the executor's loop had exited. */
  lemma {:induction false} UnfinishedIff(before: seq<Action>, after: seq<Action>)
    requires CanRun(Start(), before + ([Exit] + after))
    requires Exec(Start(), before + ([Exit] + after)).pending == []
    ensures CanRun(Start(), before)
    ensures var s := Exec(Start(), before + ([Exit] + after));
            forall id | 0 <= id < |s.jobs| :: !s.jobs[id].done <==> |Exec(Start(), before).jobs| <= id
  {
    ExecConcat(Start(), before, [Exit] + after);
    var m := Exec(Start(), before);
    StartKeeps();
    RunsKeep(Start(), before);
    StepKeeps(m, Exit);
    var gone := Step(m, Exit);
    assert ([Exit] + after)[1..] == after;
    AfterExit(gone, after, |gone.jobs|);
    RunsKeep(gone, after);
    SettledMeans(Exec(gone, after));
  }

  /** The shortest such run: stop with nothing queued, the loop exits, a session pushes;
      whatever follows, its job stays unfinished. */
  lemma {:induction false} SessionHangs(line: string, more: seq<Action>)
    requires CanRun(Start(), [StopBegin] + ([Exit] + ([PushSession(line)] + more)))
    ensures var s := Exec(Start(), [StopBegin] + ([Exit] + ([PushSession(line)] + more)));
            s.pending == [] ==> 0 < |s.jobs| && !s.jobs[0].done
  {
    var after := [PushSession(line)] + more;
    var gone := StopThenExit(after);
    if Exec(gone, after).pending == [] {
      UnfinishedIff([StopBegin], after);
      MorePushed(gone, line, more);
    }
  }

  /** The shortest way for the executor to leave. */
  lemma {:induction false} StopThenExit(after: seq<Action>) returns (gone: State)
    requires CanRun(Start(), [StopBegin] + ([Exit] + after))
    ensures gone == Start().(stop := true, executor := Exited) && Inv(gone) && CanRun(gone, after)
    ensures CanRun(Start(), [StopBegin]) && Exec(Start(), [StopBegin]) == Start().(stop := true)
    ensures Exec(Start(), [StopBegin] + ([Exit] + after)) == Exec(gone, after)
  {
    var stopped := Start().(stop := true);
    gone := stopped.(executor := Exited);
    StartKeeps();
    assert Step(Start(), StopBegin) == stopped && Step(stopped, Exit) == gone;
    StepKeeps(Start(), StopBegin);
    StepKeeps(stopped, Exit);
    RunCons(Start(), StopBegin, [Exit] + after);
    RunCons(stopped, Exit, after);
    RunCons(Start(), StopBegin, []);
    assert [StopBegin] + [] == [StopBegin];
  }

  lemma {:induction false} MorePushed(s: State, line: string, more: seq<Action>)
    requires Inv(s) && s.executor.Exited? && s.jobs == [] && s.queue == [] && CanRun(s, [PushSession(line)] + more)
    ensures 0 < |Exec(s, [PushSession(line)] + more).jobs|
  {
    var run := [PushSession(line)] + more;
    assert run[1..] == more;
    StepKeeps(s, run[0]);
    AfterExit(Step(s, run[0]), more, 0);
  }

  // ---- the code ----

  class Control {
    var jobs: seq<Job>
    var queue: seq<nat>
    var controlStop: bool
    var responses: seq<Response>

    constructor ()
      ensures Shows(Start())
    {
      jobs, queue, controlStop, responses := [], [], false, [];
    }

    /** The part of a protocol state that lives in the program's globals. */
    ghost predicate Shows(s: State)
      reads this
    {
      jobs == s.jobs && queue == s.queue && controlStop == s.stop && responses == s.responses
    }

    method PushJob(line: string, dds: bool)
      modifies this`jobs, this`queue
      ensures queue == old(queue) + [|old(jobs)|] && jobs == old(jobs) + [Job(line, dds, false, "")]
    {
      queue := queue + [|jobs|];
      jobs := jobs + [Job(line, dds, false, "")];
    }

    /** 0 iff the command line was queued; an empty or overlong one, or one that comes
        after stop, is refused and changes nothing. */
    method SubmitDds(payload: Option<string>, ghost s: State) returns (rc: int)
      requires Shows(s)
      modifies this`jobs, this`queue
      ensures Shows(Step(s, Action.SubmitDds(payload)))
      ensures rc == if payload.Some? && 0 < |payload.value| <= 4096 && !controlStop then 0 else -1
      ensures rc == 0 ==> jobs == old(jobs) + [Job(payload.value, true, false, "")]
      ensures rc == 0 ==> queue == old(queue) + [|old(jobs)|]
      ensures rc == -1 ==> jobs == old(jobs) && queue == old(queue)
    {
      if payload.None? || payload.value == [] {
        return -1;
      }
      if |payload.value| > MAX_LINE {
        return -1;
      }
      if controlStop {
        return -1;
      }
      PushJob(payload.value, true);
      return 0;
    }

    /** One turn of the executor once its wait is over: the oldest job gets the output and is
        done, and a middleware job's answer names its command line and carries the output. */
    method ControlTurn(out: string, up: bool, ghost s: State) returns (more: bool)
      requires Shows(s) && Inv(s) && s.executor.Idle? && (s.stop || s.queue != [])
      modifies this`jobs, this`queue, this`responses
      ensures more <==> old(queue) != []
      ensures CanRun(s, TurnSteps(s, out, up)) && Shows(Exec(s, TurnSteps(s, out, up)))
      ensures !more ==> jobs == old(jobs) && queue == [] && responses == old(responses)
      ensures more ==> old(queue)[0] < |old(jobs)|
      ensures more ==>
                var id := old(queue)[0];
                var job := old(jobs)[id];
                && queue == old(queue)[1..]
                && jobs == old(jobs)[id := Job(job.line, job.dds, true, out)]
                && responses == old(responses) +
                     if job.dds then [Response(id, "cmd=" + job.line + "\n" + out, up)] else []
    {
      if controlStop && queue == [] {
        RunCons(s, Exit, []);
        assert [Exit] + [] == [Exit];
        return false;
      }
      QueueInRange(s);
      assert queue[0] in s.queue;
      TurnRuns(s, out, up);
      var id := queue[0];
      queue := queue[1..];
      jobs := jobs[id := jobs[id].(resp := out)];
      if jobs[id].dds {
        responses := responses + [Response(id, CtlResp(jobs[id].line, jobs[id].resp), up)];
      }
      jobs := jobs[id := jobs[id].(done := true)];
      return true;
    }

    /** Stop: close the queue to the middleware, then answer whatever was still queued, and
        nothing else. */
    method ControlStop(ghost s: State)
      requires Shows(s) && Inv(s) && !s.stop
      modifies this`jobs, this`queue, this`controlStop
      ensures CanRun(s, [StopBegin] + Answers(|s.queue|))
      ensures Shows(Exec(s, [StopBegin] + Answers(|s.queue|)))
      ensures Exec(s, [StopBegin] + Answers(|s.queue|)).pending == []
      ensures controlStop && queue == [] && |jobs| == |old(jobs)|
      ensures forall id | 0 <= id < |jobs| ::
                jobs[id] == if id in old(queue)
                            then Job(old(jobs)[id].line, old(jobs)[id].dds, true, "control stopped")
                            else old(jobs)[id]
    {
      StopSays(s);
      AnswerAll(s);
    }

    method AnswerAll(ghost s: State)
      requires Shows(s) && Inv(s) && !s.stop
      modifies this`jobs, this`queue, this`controlStop
      ensures CanRun(s, [StopBegin] + Answers(|s.queue|))
      ensures Shows(Exec(s, [StopBegin] + Answers(|s.queue|)))
      ensures Exec(s, [StopBegin] + Answers(|s.queue|)).pending == []
    {
      ghost var u, last := StopLeads(s);
      controlStop := true;
      var pending := queue;
      queue := [];
      for i := 0 to |pending|
        invariant PendingOk(u) && Shows(u) && u.pending == pending[i..] && Leads(u, last)
      {
        var id := pending[i];
        AnswerStep(u);
        AnswersTail(u, last);
        jobs := jobs[id := jobs[id].(resp := STOPPED, done := true)];
        u := Step(u, StopAnswer);
      }
    }
  }

  /** Answering all that is pending in s ends in last. */
  ghost predicate Leads(s: State, last: State) {
    && CanRun(s, Answers(|s.pending|)) && Exec(s, Answers(|s.pending|)) == last
    && (s.pending == [] ==> s == last)
  }

  lemma StopLeads(s: State) returns (u: State, last: State)
    requires Inv(s) && !s.stop
    ensures u == s.(stop := true, pending := s.queue, queue := []) && PendingOk(u) && Leads(u, last)
    ensures CanRun(s, [StopBegin] + Answers(|s.queue|)) && Exec(s, [StopBegin] + Answers(|s.queue|)) == last
    ensures last.pending == []
  {
    u := Step(s, StopBegin);
    StepKeeps(s, StopBegin);
    PendingInRange(u);
    AnswersRun(u);
    last := Exec(u, Answers(|u.pending|));
    RunCons(s, StopBegin, Answers(|s.queue|));
  }

  ghost predicate PendingOk(s: State) {
    forall i | 0 <= i < |s.pending| :: s.pending[i] < |s.jobs|
  }

  lemma PendingInRange(s: State)
    requires Inv(s)
    ensures PendingOk(s)
  {
    forall i | 0 <= i < |s.pending| ensures s.pending[i] < |s.jobs| {
      Apart(|s.jobs|, s.queue, s.taken, s.pending, s.cancelled, s.pending[i]);
    }
  }

  /** One answer, in the terms of the globals. */
  lemma AnswerStep(s: State)
    requires PendingOk(s) && s.pending != []
    ensures s.pending[0] < |s.jobs| && Enabled(s, StopAnswer)
    ensures var u := Step(s, StopAnswer); var id := s.pending[0];
            && PendingOk(u) && u.pending == s.pending[1..] && u.queue == s.queue && u.stop == s.stop
            && u.responses == s.responses && u.jobs == s.jobs[id := s.jobs[id].(resp := STOPPED, done := true)]
  {
  }

  lemma {:induction false} RunCons(s: State, a: Action, rest: seq<Action>)
    requires Enabled(s, a) && CanRun(Step(s, a), rest)
    ensures CanRun(s, [a] + rest) && Exec(s, [a] + rest) == Exec(Step(s, a), rest)
  {
    assert ([a] + rest)[1..] == rest;
  }

  /** Answering all that is pending is a run, and leaves nothing pending. */
  lemma {:induction false} AnswersRun(s: State)
    requires PendingOk(s)
    ensures CanRun(s, Answers(|s.pending|)) && Exec(s, Answers(|s.pending|)).pending == []
    decreases |s.pending|
  {
    if s.pending != [] {
      AnswerStep(s);
      var u := Step(s, StopAnswer);
      AnswersRun(u);
      var rest := Answers(|u.pending|);
      RunCons(s, StopAnswer, rest);
      assert Answers(|s.pending|) == [StopAnswer] + rest;
    }
  }

  /** What stopping does to the jobs. */
  lemma {:induction false} StopSays(s: State)
    requires Inv(s) && !s.stop
    ensures CanRun(s, [StopBegin] + Answers(|s.queue|))
    ensures var u := Exec(s, [StopBegin] + Answers(|s.queue|));
            && u.stop && u.queue == [] && |u.jobs| == |s.jobs|
            && forall id | 0 <= id < |s.jobs| ::
                 u.jobs[id] == if id in s.queue then Job(s.jobs[id].line, s.jobs[id].dds, true, "control stopped")
                               else s.jobs[id]
  {
    var u, _ := StopLeads(s);
    AnswersSay(u);
    RunCons(s, StopBegin, Answers(|s.queue|));
  }

  lemma {:induction false} AnswersSay(s: State)
    requires PendingOk(s)
    ensures CanRun(s, Answers(|s.pending|))
    ensures var u := Exec(s, Answers(|s.pending|));
            && u.stop == s.stop && u.queue == s.queue && |u.jobs| == |s.jobs|
            && forall id | 0 <= id < |s.jobs| ::
                 u.jobs[id] == if id in s.pending then Job(s.jobs[id].line, s.jobs[id].dds, true, "control stopped")
                               else s.jobs[id]
    decreases |s.pending|
  {
    AnswersRun(s);
    if s.pending != [] {
      AnswerStep(s);
      var u := Step(s, StopAnswer);
      AnswersSay(u);
      RunCons(s, StopAnswer, Answers(|u.pending|));
      assert Answers(|s.pending|) == [StopAnswer] + Answers(|u.pending|);
    }
  }

  lemma AnswersTail(s: State, last: State)
    requires PendingOk(s) && s.pending != [] && Enabled(s, StopAnswer) && Leads(s, last)
    ensures Leads(Step(s, StopAnswer), last)
  {
    AnswerStep(s);
    var u := Step(s, StopAnswer);
    AnswersRun(u);
    RunCons(s, StopAnswer, Answers(|u.pending|));
    assert Answers(|s.pending|) == [StopAnswer] + Answers(|u.pending|);
  }

  function Answers(n: nat): seq<Action> {
    if n == 0 then [] else [StopAnswer] + Answers(n - 1)
  }

  function TurnSteps(s: State, out: string, up: bool): seq<Action> {
    if s.queue == [] then [Exit]
    else if s.queue[0] < |s.jobs| && s.jobs[s.queue[0]].dds then [Pop, Run(out), Publish(up), Finish]
    else [Pop, Run(out), Finish]
  }

  /** What one full turn of the executor leaves behind. */
  lemma {:induction false} TurnRuns(s: State, out: string, up: bool)
    requires s.executor.Idle? && s.queue != [] && s.queue[0] < |s.jobs|
    ensures CanRun(s, TurnSteps(s, out, up))
    ensures var id := s.queue[0];
            var ran := s.jobs[id := s.jobs[id].(resp := out)];
            var u := Exec(s, TurnSteps(s, out, up));
            && u.queue == s.queue[1..] && u.stop == s.stop && u.executor.Idle?
            && u.jobs == ran[id := ran[id].(done := true)]
            && u.responses == s.responses
                 + if s.jobs[id].dds then [Response(id, CtlResp(s.jobs[id].line, out), up)] else []
  {
    var s1 := Step(s, Pop);
    var s2 := Step(s1, Run(out));
    if s.jobs[s.queue[0]].dds {
      var s3 := Step(s2, Publish(up));
      RunCons(s3, Finish, []);
      RunCons(s2, Publish(up), [Finish]);
      RunCons(s1, Run(out), [Publish(up), Finish]);
      RunCons(s, Pop, [Run(out), Publish(up), Finish]);
      assert [Publish(up)] + [Finish] == [Publish(up), Finish];
      assert [Run(out)] + [Publish(up), Finish] == [Run(out), Publish(up), Finish];
      assert TurnSteps(s, out, up) == [Pop] + [Run(out), Publish(up), Finish];
    } else {
      RunCons(s2, Finish, []);
      RunCons(s1, Run(out), [Finish]);
      RunCons(s, Pop, [Run(out), Finish]);
      assert [Run(out)] + [Finish] == [Run(out), Finish];
      assert TurnSteps(s, out, up) == [Pop] + [Run(out), Finish];
      assert s.responses + [] == s.responses;
    }
    assert [Finish] + [] == [Finish];
  }
}
