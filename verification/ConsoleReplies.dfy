/** What the responses of the control queue say, traced back to the steps of the run: the
    command lines that were pushed and the outputs of their executions. */
module ConsoleReplies {
  import opened Wrappers
  import opened Console

  // ---- where a job's line and its response come from ----

  /** Step p of the run pushes the job that gets this number: from a session, or from the
      middleware as a payload of 1 to 4096 bytes before stop. */
  ghost predicate PushedAt(run: seq<Action>, p: nat, id: nat, line: string, dds: bool) {
    && p < |run| && CanRun(Start(), run[..p])
    && var s := Exec(Start(), run[..p]);
       && |s.jobs| == id
       && (if dds then run[p] == Action.SubmitDds(Some(line)) && 0 < |line| <= 4096 && !s.stop
           else run[p] == PushSession(line))
  }

  /** Step i of the run is the execution of this job, with this output. */
  ghost predicate RanAt(run: seq<Action>, i: nat, id: nat, out: string) {
    && i < |run| && CanRun(Start(), run[..i])
    && Exec(Start(), run[..i]).executor == Popped(id) && run[i] == Run(out)
  }

  ghost predicate Pushes(run: seq<Action>, id: nat, line: string, dds: bool) {
    exists p: nat :: PushedAt(run, p, id, line, dds)
  }

  ghost predicate Runs(run: seq<Action>, id: nat, out: string) {
    exists i: nat :: RanAt(run, i, id, out)
  }

  /** Every job has the line its push brought, every executed one the output of its Run. */
  ghost predicate Traced(run: seq<Action>, s: State) {
    && (forall id | 0 <= id < |s.jobs| :: Pushes(run, id, s.jobs[id].line, s.jobs[id].dds))
    && (forall id | id in s.executed :: id < |s.jobs| && Runs(run, id, s.jobs[id].resp))
  }

  lemma StillPushed(run: seq<Action>, a: Action, id: nat, line: string, dds: bool)
    requires Pushes(run, id, line, dds)
    ensures Pushes(run + [a], id, line, dds)
  {
    var p: nat :| PushedAt(run, p, id, line, dds);
    assert (run + [a])[..p] == run[..p];
    assert PushedAt(run + [a], p, id, line, dds);
  }

  lemma StillRun(run: seq<Action>, a: Action, id: nat, out: string)
    requires Runs(run, id, out)
    ensures Runs(run + [a], id, out)
  {
    var i: nat :| RanAt(run, i, id, out);
    assert (run + [a])[..i] == run[..i];
    assert RanAt(run + [a], i, id, out);
  }

  lemma NowPushed(run: seq<Action>, a: Action, line: string, dds: bool)
    requires CanRun(Start(), run)
    requires var s := Exec(Start(), run);
             if dds then a == Action.SubmitDds(Some(line)) && Accepts(s, Some(line)) else a == PushSession(line)
    ensures Pushes(run + [a], |Exec(Start(), run).jobs|, line, dds)
  {
    assert (run + [a])[..|run|] == run;
    assert PushedAt(run + [a], |run|, |Exec(Start(), run).jobs|, line, dds);
  }

  lemma NowRun(run: seq<Action>, id: nat, out: string)
    requires CanRun(Start(), run) && Exec(Start(), run).executor == Popped(id)
    ensures Runs(run + [Run(out)], id, out)
  {
    assert (run + [Run(out)])[..|run|] == run;
    assert RanAt(run + [Run(out)], |run|, id, out);
  }

  /** What a step does to the jobs there are: lines and sources stay, and so do the outputs
      of those executed. */
  ghost predicate JobsKept(jobs: seq<Job>, after: seq<Job>, executed: seq<nat>) {
    && |jobs| <= |after|
    && (forall id | 0 <= id < |jobs| :: after[id].line == jobs[id].line && after[id].dds == jobs[id].dds)
    && (forall id | id in executed :: id < |jobs| && after[id].resp == jobs[id].resp)
  }

  lemma StepKeepsJobs(s: State, a: Action)
    requires Enabled(s, a) && forall id | id in s.executed :: id < |s.jobs|
    requires a.Run? ==> s.executor.id !in s.executed
    requires a.StopAnswer? ==> s.pending[0] !in s.executed
    ensures JobsKept(s.jobs, Step(s, a).jobs, s.executed)
  {
  }

  /** The steps that set an output set that of a job not executed before. */
  lemma FreshOutput(s: State, a: Action)
    requires Inv(s) && Enabled(s, a)
    ensures forall id | id in s.executed :: id < |s.jobs|
    ensures a.Run? ==> s.executor.id !in s.executed
    ensures a.StopAnswer? ==> s.pending[0] !in s.executed
  {
    TakenInRange(s);
    if a.Run? {
      PoppedIsNew(s);
    } else if a.StopAnswer? {
      Apart(|s.jobs|, s.queue, s.taken, s.pending, s.cancelled, s.pending[0]);
    }
  }

  /** The job a step adds, if it adds one, is traced by that step. */
  lemma {:induction false} NewJobTraced(run: seq<Action>, s: State, a: Action)
    requires CanRun(Start(), run) && Exec(Start(), run) == s && Enabled(s, a)
    ensures var u := Step(s, a);
            && |s.jobs| <= |u.jobs| <= |s.jobs| + 1
            && (|s.jobs| < |u.jobs| ==> Pushes(run + [a], |s.jobs|, u.jobs[|s.jobs|].line, u.jobs[|s.jobs|].dds))
  {
    match a
    case PushSession(line) => NowPushed(run, a, line, false);
    case SubmitDds(payload) =>
      if Accepts(s, payload) {
        NowPushed(run, a, payload.value, true);
      }
    case _ =>
  }

  /** So is the execution a step adds. */
  lemma {:induction false} NewRunTraced(run: seq<Action>, s: State, a: Action)
    requires CanRun(Start(), run) && Exec(Start(), run) == s && Enabled(s, a)
    ensures var u := Step(s, a);
            if a.Run? then
              u.executed == s.executed + [s.executor.id] && s.executor.id < |u.jobs|
              && Runs(run + [a], s.executor.id, u.jobs[s.executor.id].resp)
            else u.executed == s.executed
  {
    if a.Run? {
      NowRun(run, s.executor.id, a.out);
    }
  }

  lemma {:induction false} TracedStep(run: seq<Action>, s: State, a: Action, u: State)
    requires Traced(run, s) && JobsKept(s.jobs, u.jobs, s.executed) && |u.jobs| <= |s.jobs| + 1
    requires |s.jobs| < |u.jobs| ==> Pushes(run + [a], |s.jobs|, u.jobs[|s.jobs|].line, u.jobs[|s.jobs|].dds)
    requires forall id | id in u.executed && id !in s.executed :: id < |u.jobs| && Runs(run + [a], id, u.jobs[id].resp)
    ensures Traced(run + [a], u)
  {
    forall id | 0 <= id < |u.jobs| ensures Pushes(run + [a], id, u.jobs[id].line, u.jobs[id].dds) {
      if id < |s.jobs| {
        StillPushed(run, a, id, u.jobs[id].line, u.jobs[id].dds);
      }
    }
    forall id | id in u.executed ensures id < |u.jobs| && Runs(run + [a], id, u.jobs[id].resp) {
      if id in s.executed {
        StillRun(run, a, id, u.jobs[id].resp);
      }
    }
  }

  lemma {:induction false} TracedOneMore(run: seq<Action>, s: State, a: Action)
    requires CanRun(Start(), run) && Exec(Start(), run) == s && Inv(s) && Enabled(s, a) && Traced(run, s)
    ensures Traced(run + [a], Step(s, a))
  {
    FreshOutput(s, a);
    StepKeepsJobs(s, a);
    NewJobTraced(run, s, a);
    NewRunTraced(run, s, a);
    TracedStep(run, s, a, Step(s, a));
  }

  /** On every run jobs and outputs are those the steps brought. */
  lemma {:induction false} TracedRuns(run: seq<Action>)
    requires CanRun(Start(), run)
    ensures Traced(run, Exec(Start(), run))
    decreases |run|
  {
    if run != [] {
      var front, a := run[..|run| - 1], run[|run| - 1];
      assert run == front + [a];
      ExecConcat(Start(), front, [a]);
      TracedRuns(front);
      StartKeeps();
      RunsKeep(Start(), front);
      var s := Exec(Start(), front);
      TracedOneMore(front, s, a);
      assert [a][1..] == [];
    }
  }

  // ---- reading a response ----

  /** The text is "cmd=", the line, a newline and the output; the newline is the first one
      behind the prefix if the line holds none. */
  ghost predicate ReadsBack(text: string, line: string, out: string) {
    && |text| == 5 + |line| + |out|
    && text[..4] == ['c', 'm', 'd', '='] && text[4..4 + |line|] == line
    && text[4 + |line|] == '\n' && text[5 + |line|..] == out
    && ('\n' !in line ==> forall k | 4 <= k < 4 + |line| :: text[k] != '\n')
  }

  lemma TextReadsBack(line: string, out: string)
    ensures ReadsBack("cmd=" + line + "\n" + out, line, out)
  {
    var text := "cmd=" + line + "\n" + out;
    forall k | 4 <= k < 4 + |line| ensures text[k] == line[k - 4] {
    }
  }

  /** On every run each response tells, behind "cmd=", the line that the middleware submitted
      as this job, and behind the newline the output of this job's execution. */
  lemma {:induction false} ResponsesReadBack(run: seq<Action>, r: Response)
    requires CanRun(Start(), run) && r in Exec(Start(), run).responses
    ensures exists p: nat, i: nat, line, out ::
              PushedAt(run, p, r.id, line, true) && RanAt(run, i, r.id, out) && ReadsBack(r.text, line, out)
  {
    var s := Exec(Start(), run);
    TracedRuns(run);
    StartKeeps();
    RunsKeep(Start(), run);
    var line, out := s.jobs[r.id].line, s.jobs[r.id].resp;
    TextReadsBack(line, out);
    FromMiddleware(s, r);
    var p: nat :| PushedAt(run, p, r.id, line, true);
    var i: nat :| RanAt(run, i, r.id, out);
  }

  /** Only middleware jobs get a response. */
  lemma {:induction false} FromMiddleware(s: State, r: Response)
    requires Inv(s) && r in s.responses
    ensures r.id < |s.jobs| && s.jobs[r.id].dds
  {
    IdsOfResponses(s.responses, r);
    assert r.id in DdsOf(s.jobs, s.executed);
    OnlyDds(s.jobs, s.executed, r.id);
  }

  lemma {:induction false} IdsOfResponses(rs: seq<Response>, r: Response)
    requires r in rs
    ensures r.id in RespIds(rs)
    decreases |rs|
  {
    if rs[|rs| - 1] != r {
      IdsOfResponses(rs[..|rs| - 1], r);
    }
  }

  lemma {:induction false} OnlyDds(jobs: seq<Job>, ids: seq<nat>, id: nat)
    requires id in DdsOf(jobs, ids)
    ensures id < |jobs| && jobs[id].dds
    decreases |ids|
  {
    if ids != [] && id in DdsOf(jobs, ids[..|ids| - 1]) {
      OnlyDds(jobs, ids[..|ids| - 1], id);
    }
  }

  /** A receiver can tell from the text alone which line was answered and what came out:
      equal texts mean equal lines and equal outputs, for lines without a newline. */
  lemma {:induction false} TextsTellApart(text: string, line1: string, out1: string, line2: string, out2: string)
    requires ReadsBack(text, line1, out1) && ReadsBack(text, line2, out2)
    requires '\n' !in line1 && '\n' !in line2
    ensures line1 == line2 && out1 == out2
  {
    var k1, k2 := 4 + |line1|, 4 + |line2|;
    assert !(k1 < k2) && !(k2 < k1);
  }

  /** On every run: two responses to lines without a newline have the same text only if the
      jobs have the same line and the same output. */
  lemma {:induction false} ResponsesTellApart(run: seq<Action>, r1: Response, r2: Response)
    requires CanRun(Start(), run) && r1 in Exec(Start(), run).responses && r2 in Exec(Start(), run).responses
    ensures var s := Exec(Start(), run);
            && r1.id < |s.jobs| && r2.id < |s.jobs|
            && ('\n' !in s.jobs[r1.id].line && '\n' !in s.jobs[r2.id].line && r1.text == r2.text
                ==> s.jobs[r1.id].line == s.jobs[r2.id].line && s.jobs[r1.id].resp == s.jobs[r2.id].resp)
  {
    var s := Exec(Start(), run);
    StartKeeps();
    RunsKeep(Start(), run);
    var j1, j2 := s.jobs[r1.id], s.jobs[r2.id];
    TextReadsBack(j1.line, j1.resp);
    TextReadsBack(j2.line, j2.resp);
    if '\n' !in j1.line && '\n' !in j2.line && r1.text == r2.text {
      TextsTellApart(r1.text, j1.line, j1.resp, j2.line, j2.resp);
    }
  }
}
