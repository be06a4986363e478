/** `sendJob` of one connection, run by any number of threads at once. Only the fetching of the job is done under a
    lock; comparing, sending and noting the difficulty and sending the job are steps that interleave
    (lib/stratum/StratumClientConnection.cpp). */
module Announcements {
  import opened ByteStrings
  import opened Share
  import opened Pool
  import opened Sessions

  /** Where a thread is inside `sendJob`. */
  datatype Call =
    | Idle
    | Fetched(job: Job, force: bool)  // has its job
    | Unequal(job: Job, force: bool)  // has found another difficulty in place
    | Told(job: Job, force: bool)     // has sent the difficulty and not noted it yet
    | Ready(job: Job, force: bool)    // has nothing left but to send the job

  datatype State = State(manager: Manager, client: Client, calls: seq<Call>)

  datatype Action =
    | Fetch(t: nat, force: bool, clock: Clock)
    | Check(t: nat)
    | Send(t: nat)
    | Assign(t: nat)
    | Announce(t: nat)
    // what goes on besides
    | Clear
    | Install(coinbase: BuiltCoinbase)
    | Submit(submission: Submission, plugins: Plugins)

  predicate Enabled(s: State, a: Action) {
    match a
    case Fetch(t, _, _) => t < |s.calls| && s.calls[t].Idle?
    case Check(t) => t < |s.calls| && s.calls[t].Fetched?
    case Send(t) => t < |s.calls| && s.calls[t].Unequal?
    case Assign(t) => t < |s.calls| && s.calls[t].Told?
    case Announce(t) => t < |s.calls| && s.calls[t].Ready?
    case _ => true
  }

  function Next(s: State, a: Action): State
    requires Enabled(s, a)
  {
    match a
    case Fetch(t, force, clock) =>
      var (m, c, job) := FetchedJob(s.manager, s.client, force, clock);
      State(m, c, s.calls[t := Fetched(job, force)])
    case Check(t) =>
      var job, force := s.calls[t].job, s.calls[t].force;
      s.(calls := s.calls[t := if job.diff != s.client.currentDiff then Unequal(job, force) else Ready(job, force)])
    case Send(t) =>
      var job, force := s.calls[t].job, s.calls[t].force;
      s.(client := s.client.(outbox := s.client.outbox + [SetDifficulty(job.diff)]), calls := s.calls[t := Told(job, force)])
    case Assign(t) =>
      var job, force := s.calls[t].job, s.calls[t].force;
      s.(client := s.client.(currentDiff := job.diff), calls := s.calls[t := Ready(job, force)])
    case Announce(t) =>
      s.(client := JobSent(s.client, s.calls[t].job, s.calls[t].force), calls := s.calls[t := Idle])
    case Clear => s.(client := Cleared(s.client))
    case Install(coinbase) => s.(manager := s.manager.(generation := coinbase.origin, coinbase := coinbase))
    case Submit(submission, p) => s.(client := Submitted(s.client, submission, p.sha256d, p.hasher))
  }

  /** An action that is not enabled does not happen. */
  function Step(s: State, a: Action): State {
    if Enabled(s, a) then Next(s, a) else s
  }

  function Execute(s: State, run: seq<Action>): State {
    if run == [] then s else Step(Execute(s, run[..|run| - 1]), run[|run| - 1])
  }

  predicate AllIdle(calls: seq<Call>) {
    forall t :: 0 <= t < |calls| ==> calls[t].Idle?
  }

  /** A fresh connection, and every thread outside `sendJob`. */
  predicate Initial(s: State) {
    Fresh(Session(s.manager, s.client)) && AllIdle(s.calls)
  }

  // ---------- One thread alone ----------

  lemma ExecuteMore(s: State, run: seq<Action>, a: Action)
    ensures Execute(s, run + [a]) == Step(Execute(s, run), a)
  {
    assert (run + [a])[..|run|] == run;
  }

  lemma Execute2(s: State, a: Action, b: Action)
    ensures Execute(s, [a, b]) == Step(Step(s, a), b)
  {
    hide Step;
    ExecuteMore(s, [], a);
    ExecuteMore(s, [a], b);
    assert [] + [a] == [a] && [a] + [b] == [a, b];
  }

  lemma Execute4(s: State, a: Action, b: Action, c: Action, d: Action)
    ensures Execute(s, [a, b, c, d]) == Step(Step(Step(Step(s, a), b), c), d)
  {
    hide Step, Execute;
    Execute2(s, a, b);
    ExecuteMore(s, [a, b], c);
    ExecuteMore(s, [a, b, c], d);
    assert [a, b] + [c] == [a, b, c] && [a, b, c] + [d] == [a, b, c, d];
  }

  /** The steps of one thread in a row are `sendJob` as one step. */
  lemma AloneIsSent(s: State, t: nat, force: bool, clock: Clock)
    requires t < |s.calls| && s.calls[t].Idle?
    ensures var e := Execute(Step(s, Fetch(t, force, clock)), [Check(t), Send(t), Assign(t), Announce(t)]);
            (e.manager, e.client) == Sent(s.manager, s.client, force, clock) && e.calls == s.calls
  {
    hide FetchedJob;
    var (m, c, job) := FetchedJob(s.manager, s.client, force, clock);
    var fetched := State(m, c, s.calls[t := Fetched(job, force)]);
    assert Step(s, Fetch(t, force, clock)) == fetched;
    assert Sent(s.manager, s.client, force, clock) == (m, Announced(c, job, force));
    hide Step, Sent, Execute;
    Execute4(fetched, Check(t), Send(t), Assign(t), Announce(t));
    FromFetched(fetched, t, job, force);
    assert s.calls[t := Fetched(job, force)][t := Idle] == s.calls;
  }

  lemma FromFetched(s: State, t: nat, job: Job, force: bool)
    requires t < |s.calls| && s.calls[t] == Fetched(job, force)
    ensures Step(Step(Step(Step(s, Check(t)), Send(t)), Assign(t)), Announce(t))
            == State(s.manager, Announced(s.client, job, force), s.calls[t := Idle])
  {
    hide FetchedJob, Submitted;
    var checked := Step(s, Check(t));
    if job.diff != s.client.currentDiff {
      assert checked.calls == s.calls[t := Unequal(job, force)];
      var told := Step(checked, Send(t));
      assert told.calls == s.calls[t := Told(job, force)];
      var noted := Step(told, Assign(t));
      assert noted.calls == s.calls[t := Ready(job, force)];
      assert noted.calls[t := Idle] == s.calls[t := Idle];
    } else {
      assert checked.calls == s.calls[t := Ready(job, force)];
      assert checked.calls[t := Idle] == s.calls[t := Idle];
    }
  }

  // ---------- What every interleaving keeps ----------

  /** Each job sent is good, and its difficulty has been sent at some time before it. */
  ghost predicate AllAnnounced(outbox: seq<Message>) {
    forall i :: 0 <= i < |outbox| && outbox[i].Notify? ==>
      GoodJob(outbox[i].job) && SetDifficulty(outbox[i].job.diff) in outbox[..i]
  }

  ghost predicate Inv(s: State) {
    var c := s.client;
    && s.manager.defaultDiff > 0.0
    && ActiveIsLast(c)
    && (forall i :: 0 <= i < |c.jobs| ==> GoodJob(c.jobs[i]))
    && (c.currentDiff == -1.0 || (c.currentDiff > 0.0 && SetDifficulty(c.currentDiff) in c.outbox))
    && AllAnnounced(c.outbox)
    && (forall t :: 0 <= t < |s.calls| && !s.calls[t].Idle? ==> GoodJob(s.calls[t].job))
    && (forall t :: 0 <= t < |s.calls| && (s.calls[t].Told? || s.calls[t].Ready?) ==>
          SetDifficulty(s.calls[t].job.diff) in c.outbox)
  }

  lemma AnnouncedAppend(outbox: seq<Message>, m: Message)
    requires AllAnnounced(outbox)
    requires m.Notify? ==> GoodJob(m.job) && SetDifficulty(m.job.diff) in outbox
    ensures AllAnnounced(outbox + [m])
  {
    hide GoodJob;
    var longer := outbox + [m];
    forall i | 0 <= i < |longer| && longer[i].Notify?
      ensures GoodJob(longer[i].job) && SetDifficulty(longer[i].job.diff) in longer[..i]
    {
      assert i < |outbox| ==> longer[..i] == outbox[..i];
      assert longer[..|outbox|] == outbox;
    }
  }

  lemma FetchIsGood(m: Manager, c: Client, force: bool, clock: Clock)
    requires m.defaultDiff > 0.0 && ActiveIsLast(c) && (c.currentDiff == -1.0 || c.currentDiff > 0.0)
    requires forall i :: 0 <= i < |c.jobs| ==> GoodJob(c.jobs[i])
    ensures var (m', c', job) := FetchedJob(m, c, force, clock);
            && GoodJob(job) && m'.defaultDiff == m.defaultDiff && ActiveIsLast(c')
            && c'.outbox == c.outbox && c'.currentDiff == c.currentDiff
            && (forall i :: 0 <= i < |c'.jobs| ==> GoodJob(c'.jobs[i]))
  {
    hide NewDiff, GoodJob, CappedDiff;
    if force || c.activeJob.None? {
      NewDiffIsUsable(c, clock);
      CreatedJobIsGood(m, c.currentDiff, NewDiff(c, clock).0, clock.created);
    }
  }

  lemma NextKeeps(s: State, a: Action)
    requires Inv(s) && Enabled(s, a)
    ensures Inv(Next(s, a))
  {
    hide FetchedJob, GoodJob, AllAnnounced, Judged, ActiveIsLast;
    if !a.Fetch? && !a.Clear? {
      SameJobs(s.client, Next(s, a).client);
    }
    match a
    case Fetch(_, force, clock) =>
      FetchIsGood(s.manager, s.client, force, clock);
    case Check(t) =>
      GoodIsPositive(s.calls[t].job);
    case Send(t) =>
      AnnouncedAppend(s.client.outbox, SetDifficulty(s.calls[t].job.diff));
      GoodIsPositive(s.calls[t].job);
    case Assign(t) =>
      GoodIsPositive(s.calls[t].job);
    case Announce(t) =>
      AnnouncedAppend(s.client.outbox, Notify(s.calls[t].job, s.calls[t].force));
    case Submit(submission, p) =>
      AnnouncedAppend(s.client.outbox, Answer(Judged(s.client, submission, p.sha256d, p.hasher).1));
    case Clear =>
      NoJobs(Next(s, a).client);
    case _ =>
  }

  lemma GoodIsPositive(j: Job)
    requires GoodJob(j)
    ensures j.diff > 0.0
  {
  }

  lemma SameJobs(c: Client, d: Client)
    requires d.jobs == c.jobs && d.activeJob == c.activeJob
    ensures ActiveIsLast(c) ==> ActiveIsLast(d)
  {
  }

  lemma NoJobs(c: Client)
    requires c.jobs == [] && c.activeJob.None?
    ensures ActiveIsLast(c)
  {
  }

  /** In every interleaving of any number of threads, every job sent is positive and within its cap, and its difficulty
      was sent before it, though not always last. */
  lemma {:induction false} EveryRunAnnounces(s: State, run: seq<Action>)
    requires Initial(s)
    ensures Inv(Execute(s, run)) && AllAnnounced(Execute(s, run).client.outbox)
  {
    hide Next, Enabled;
    if run == [] {
    } else {
      var before := Execute(s, run[..|run| - 1]);
      EveryRunAnnounces(s, run[..|run| - 1]);
      if Enabled(before, run[|run| - 1]) {
        NextKeeps(before, run[|run| - 1]);
      }
    }
  }

  // ---------- When the difficulty in place is the one last sent ----------

  /** The difficulty that the last thread to send one sent. */
  function LastSent(s: State, run: seq<Action>): Option<real> {
    if run == [] then None
    else
      var front, a := run[..|run| - 1], run[|run| - 1];
      if a.Send? && Enabled(Execute(s, front), a) then Some(Execute(s, front).calls[a.t].job.diff) else LastSent(s, front)
  }

  /** The difficulty that the last thread to note one noted. */
  function LastNoted(s: State, run: seq<Action>): Option<real> {
    if run == [] then None
    else
      var front, a := run[..|run| - 1], run[|run| - 1];
      if a.Assign? && Enabled(Execute(s, front), a) then Some(Execute(s, front).calls[a.t].job.diff) else LastNoted(s, front)
  }

  /** The miner works at the difficulty that the connection believes. */
  predicate InStep(c: Client) {
    match LastDiff(c.outbox)
    case None => c.currentDiff == -1.0
    case Some(d) => c.currentDiff == d
  }

  lemma OutboxStep(s: State, a: Action)
    ensures LastDiff(Step(s, a).client.outbox)
            == if a.Send? && Enabled(s, a) then Some(s.calls[a.t].job.diff) else LastDiff(s.client.outbox)
    ensures Step(s, a).client.currentDiff
            == if a.Assign? && Enabled(s, a) then s.calls[a.t].job.diff else s.client.currentDiff
  {
    hide LastDiff, NewDiff, CreatedJob, Judged;
    if Enabled(s, a) {
      match a
      case Send(t) =>
        LastDiffAppend(s.client.outbox, SetDifficulty(s.calls[t].job.diff));
      case Announce(t) =>
        LastDiffAppend(s.client.outbox, Notify(s.calls[t].job, s.calls[t].force));
      case Submit(submission, p) =>
        LastDiffAppend(s.client.outbox, Answer(Judged(s.client, submission, p.sha256d, p.hasher).1));
      case _ =>
    }
  }

  lemma {:induction false} LastEvents(s: State, run: seq<Action>)
    ensures var c := Execute(s, run).client;
            && LastDiff(c.outbox) == (if LastSent(s, run).Some? then LastSent(s, run) else LastDiff(s.client.outbox))
            && c.currentDiff == (if LastNoted(s, run).Some? then LastNoted(s, run).value else s.client.currentDiff)
  {
    hide Step, LastDiff;
    if run == [] {
    } else {
      LastEvents(s, run[..|run| - 1]);
      OutboxStep(Execute(s, run[..|run| - 1]), run[|run| - 1]);
    }
  }

  lemma CallsArePositive(s: State, t: nat)
    requires Inv(s) && t < |s.calls| && !s.calls[t].Idle?
    ensures s.calls[t].job.diff > 0.0
  {
  }

  lemma CallKept(e: State, t: nat, a: Action)
    requires t < |e.calls| && !e.calls[t].Idle? && !e.calls[t].Fetched? && a != Announce(t)
    ensures var f := Step(e, a);
            && |f.calls| == |e.calls| && !f.calls[t].Idle? && !f.calls[t].Fetched? && f.calls[t].job == e.calls[t].job
            && (!(a.Send? && Enabled(e, a)) && !e.calls[t].Told? ==> f.calls[t] == e.calls[t])
  {
    hide FetchedJob, Submitted;
  }

  /** While thread `t` is in one call it keeps its job, and it gets from finding another difficulty to being ready only
      by sending its own. */
  lemma {:induction false} CallGoesOn(s: State, t: nat, run: seq<Action>)
    requires t < |s.calls| && (s.calls[t].Unequal? || s.calls[t].Ready?) && Announce(t) !in run
    ensures var e := Execute(s, run);
            && |e.calls| == |s.calls| && !e.calls[t].Idle? && !e.calls[t].Fetched? && e.calls[t].job == s.calls[t].job
            && (LastSent(s, run).None? ==> e.calls[t] == s.calls[t])
  {
    hide Step, Enabled;
    if run == [] {
    } else {
      var front, a := run[..|run| - 1], run[|run| - 1];
      CallGoesOn(s, t, front);
      CallKept(Execute(s, front), t, a);
    }
  }

  /** In every interleaving of any number of threads, for any one call from its comparison to its job: if some thread
      sends a difficulty in between, the job is announced rightly if and only if the last one sent is its own; if none
      does, if and only if the connection was in step when the call compared. */
  lemma AnnouncementExactly(s: State, before: seq<Action>, t: nat, between: seq<Action>)
    requires Initial(s) && Enabled(Execute(s, before), Check(t)) && Announce(t) !in between
    requires Enabled(Execute(Step(Execute(s, before), Check(t)), between), Announce(t))
    ensures var at := Execute(s, before);
            var checked := Step(at, Check(t));
            LastDiff(Execute(checked, between).client.outbox) == Some(at.calls[t].job.diff)
            <==> match LastSent(checked, between)
                 case Some(d) => d == at.calls[t].job.diff
                 case None => InStep(at.client)
  {
    hide Execute, LastSent, LastNoted, LastDiff, Inv;
    var at := Execute(s, before);
    var checked := Step(at, Check(t));
    EveryRunAnnounces(s, before);
    CallsArePositive(at, t);
    LastEvents(checked, between);
    CallGoesOn(checked, t, between);
  }

  /** In every interleaving, from the last sending of a difficulty on: the connection is in step if and only if the last
      thread to note a difficulty since notes the one sent, or none does and it was the one in place. */
  lemma InStepExactly(s: State, before: seq<Action>, t: nat, after: seq<Action>)
    requires Initial(s) && Enabled(Execute(s, before), Send(t))
    requires LastSent(Step(Execute(s, before), Send(t)), after).None?
    ensures var at := Execute(s, before);
            var sent := Step(at, Send(t));
            InStep(Execute(sent, after).client)
            <==> match LastNoted(sent, after)
                 case Some(d) => d == at.calls[t].job.diff
                 case None => at.client.currentDiff == at.calls[t].job.diff
  {
    hide Execute, LastSent, LastNoted, LastDiff, Inv;
    var at := Execute(s, before);
    OutboxStep(at, Send(t));
    LastEvents(Step(at, Send(t)), after);
  }

  // ---------- Calls one after another ----------

  /** A fetch waits until no other thread is inside `sendJob`, as one lock around it would make it do. */
  predicate Serial(s: State, run: seq<Action>) {
    run == []
    || (&& Serial(s, run[..|run| - 1])
        && (run[|run| - 1].Fetch? ==> AllIdle(Execute(s, run[..|run| - 1]).calls)))
  }

  /** At most thread `t` is inside `sendJob`, and what it has done so far is as it should be. */
  ghost predicate OnlyThread(s: State, t: nat) {
    && NotifiesMatch(s.client.outbox)
    && (forall u :: 0 <= u < |s.calls| && u != t ==> s.calls[u].Idle?)
    && (t < |s.calls| && s.calls[t].Told? ==> LastDiff(s.client.outbox) == Some(s.calls[t].job.diff))
    && (!(t < |s.calls| && s.calls[t].Told?) ==> InStep(s.client))
    && (t < |s.calls| && s.calls[t].Ready? ==> s.client.currentDiff == s.calls[t].job.diff)
  }

  lemma SerialStep(s: State, a: Action, t: nat)
    requires Inv(s) && OnlyThread(s, t) && Enabled(s, a)
    requires a.Fetch? ==> AllIdle(s.calls)
    ensures OnlyThread(Next(s, a), if a.Fetch? then a.t else t)
  {
    hide LastDiff, NotifiesMatch, NewDiff, CreatedJob, Judged, GoodJob, AllAnnounced;
    OutboxStep(s, a);
    match a
    case Send(u) =>
      MatchAppend(s.client.outbox, SetDifficulty(s.calls[u].job.diff));
    case Announce(u) =>
      GoodIsPositive(s.calls[u].job);
      MatchAppend(s.client.outbox, Notify(s.calls[u].job, s.calls[u].force));
    case Submit(submission, p) =>
      MatchAppend(s.client.outbox, Answer(Judged(s.client, submission, p.sha256d, p.hasher).1));
    case _ =>
  }

  lemma {:induction false} SerialRun(s: State, run: seq<Action>) returns (t: nat)
    requires Initial(s) && Serial(s, run)
    ensures OnlyThread(Execute(s, run), t) && |Execute(s, run).calls| == |s.calls|
  {
    hide Inv, OnlyThread, LastDiff;
    if run == [] {
      t := 0;
      NobodyInside(s);
    } else {
      var before, a := Execute(s, run[..|run| - 1]), run[|run| - 1];
      t := SerialRun(s, run[..|run| - 1]);
      EveryRunAnnounces(s, run[..|run| - 1]);
      if Enabled(before, a) {
        SerialStep(before, a, t);
        t := if a.Fetch? then a.t else t;
      }
    }
  }

  lemma NobodyInside(s: State)
    requires Initial(s)
    ensures OnlyThread(s, 0)
  {
  }

  /** If no two threads are inside `sendJob` at once, every job is sent while its difficulty is the last one sent. */
  lemma SerialRunsMatch(s: State, run: seq<Action>)
    requires Initial(s) && Serial(s, run)
    ensures NotifiesMatch(Execute(s, run).client.outbox)
  {
    var t := SerialRun(s, run);
  }

  // ---------- Two calls at once ----------

  /** Where each of two calls takes its steps in a run that does nothing else to the difficulty. */
  datatype Order = Order(check: nat, send: nat, assign: nat, announce: nat)

  predicate Quiet(a: Action) {
    a.Clear? || a.Install? || a.Submit?
  }

  predicate IsOrder(run: seq<Action>, t: nat, o: Order) {
    && o.check < o.send < o.assign < o.announce < |run|
    && run[o.check] == Check(t) && run[o.send] == Send(t) && run[o.assign] == Assign(t) && run[o.announce] == Announce(t)
  }

  predicate Taken(o: Order, i: nat) {
    i == o.check || i == o.send || i == o.assign || i == o.announce
  }

  /** A run of two calls with threads `t` and `u`, each of which has fetched its job. */
  ghost predicate TwoCalls(s: State, t: nat, u: nat, a: Job, b: Job, o: Order, p: Order, run: seq<Action>) {
    && t < |s.calls| && u < |s.calls| && t != u
    && s.calls[t].Fetched? && s.calls[t].job == a && s.calls[u].Fetched? && s.calls[u].job == b
    && IsOrder(run, t, o) && IsOrder(run, u, p)
    && forall i :: 0 <= i < |run| && !Taken(o, i) && !Taken(p, i) ==> Quiet(run[i])
  }

  /** Whether a call with a job of difficulty `mine` finds another one in place, `first` unless the other call has noted
      its own before. */
  predicate Tells(mine: real, first: real, theirs: real, o: Order, other: Order) {
    if other.assign < o.check then mine != theirs else mine != first
  }

  /** Of two events that may happen before step `k`, the value of the later one. */
  function Later(k: nat, i: nat, happens: bool, v: real, j: nat, occurs: bool, w: real, first: real): real {
    if happens && i < k && !(occurs && i < j < k) then v else if occurs && j < k then w else first
  }

  function CallAt(c: Call, tells: bool, o: Order, k: nat): Call
    requires c.Fetched?
  {
    if k <= o.check then c
    else if o.announce < k then Idle
    else if !tells || o.assign < k then Ready(c.job, c.force)
    else if k <= o.send then Unequal(c.job, c.force)
    else Told(c.job, c.force)
  }

  ghost predicate AfterSteps(s: State, t: nat, u: nat, a: real, b: real, o: Order, p: Order, k: nat, e: State)
    requires t < |s.calls| && u < |s.calls| && s.calls[t].Fetched? && s.calls[u].Fetched?
  {
    var first := s.client.currentDiff;
    var x, y := Tells(a, first, b, o, p), Tells(b, first, a, p, o);
    && |e.calls| == |s.calls|
    && e.calls[t] == CallAt(s.calls[t], x, o, k) && e.calls[u] == CallAt(s.calls[u], y, p, k)
    && e.client.currentDiff == Later(k, o.assign, x, a, p.assign, y, b, first)
    && LastDiff(e.client.outbox) == (if (x && o.send < k) || (y && p.send < k)
                                     then Some(Later(k, o.send, x, a, p.send, y, b, first)) else LastDiff(s.client.outbox))
  }

  predicate Ordered(o: Order) {
    o.check < o.send < o.assign < o.announce
  }

  lemma CallAtStep(c: Call, tells: bool, o: Order, k: nat)
    requires c.Fetched? && Ordered(o) && Taken(o, k)
    ensures CallAt(c, tells, o, k)
            == if k == o.check then c else if !tells || k == o.announce then Ready(c.job, c.force)
               else if k == o.send then Unequal(c.job, c.force) else Told(c.job, c.force)
    ensures CallAt(c, tells, o, k + 1)
            == if k == o.announce then Idle else if !tells || k == o.assign then Ready(c.job, c.force)
               else if k == o.check then Unequal(c.job, c.force) else Told(c.job, c.force)
  {
  }

  lemma LaterStep(k: nat, i: nat, happens: bool, v: real, j: nat, occurs: bool, w: real, first: real)
    requires i != j && k != j
    ensures Later(k + 1, i, happens, v, j, occurs, w, first)
            == if k == i && happens then v else Later(k, i, happens, v, j, occurs, w, first)
  {
  }

  /** What a call compares its difficulty with, and what it makes of it. */
  lemma TellsAtCheck(mine: real, first: real, theirs: real, o: Order, other: Order)
    requires Ordered(o) && Ordered(other)
    ensures var x, y := Tells(mine, first, theirs, o, other), Tells(theirs, first, mine, other, o);
            x <==> mine != Later(o.check, o.assign, x, mine, other.assign, y, theirs, first)
  {
  }

  /** The step of the call of thread `t`. */
  lemma FirstCallSteps(s: State, t: nat, u: nat, a: Job, b: Job, o: Order, p: Order, run: seq<Action>, k: nat, e: State)
    requires TwoCalls(s, t, u, a, b, o, p, run) && k < |run| && Taken(o, k)
    requires AfterSteps(s, t, u, a.diff, b.diff, o, p, k, e)
    ensures AfterSteps(s, t, u, a.diff, b.diff, o, p, k + 1, Step(e, run[k]))
  {
    hide LastDiff, FetchedJob, Submitted, CallAt, Later, Tells;
    assert !Taken(p, k);
    OutboxStep(e, run[k]);
    var first := s.client.currentDiff;
    var x, y := Tells(a.diff, first, b.diff, o, p), Tells(b.diff, first, a.diff, p, o);
    TellsAtCheck(a.diff, first, b.diff, o, p);
    CallAtStep(s.calls[t], x, o, k);
    SameAfter(s.calls[u], y, p, k);
    LaterStep(k, o.assign, x, a.diff, p.assign, y, b.diff, first);
    LaterStep(k, o.send, x, a.diff, p.send, y, b.diff, first);
  }

  lemma QuietSteps(s: State, t: nat, u: nat, a: Job, b: Job, o: Order, p: Order, run: seq<Action>, k: nat, e: State)
    requires TwoCalls(s, t, u, a, b, o, p, run) && k < |run| && !Taken(o, k) && !Taken(p, k)
    requires AfterSteps(s, t, u, a.diff, b.diff, o, p, k, e)
    ensures AfterSteps(s, t, u, a.diff, b.diff, o, p, k + 1, Step(e, run[k]))
  {
    hide LastDiff, FetchedJob, Submitted, Tells, CallAt, Later;
    OutboxStep(e, run[k]);
    QuietKeepsCalls(e, run[k]);
    SameAfter(s.calls[t], Tells(a.diff, s.client.currentDiff, b.diff, o, p), o, k);
    SameAfter(s.calls[u], Tells(b.diff, s.client.currentDiff, a.diff, p, o), p, k);
    SameLater(k, o.assign, p.assign);
    SameLater(k, o.send, p.send);
  }

  lemma QuietKeepsCalls(e: State, a: Action)
    requires Quiet(a)
    ensures Step(e, a).calls == e.calls
  {
  }

  lemma SameAfter(c: Call, tells: bool, o: Order, k: nat)
    requires c.Fetched? && !Taken(o, k)
    ensures CallAt(c, tells, o, k + 1) == CallAt(c, tells, o, k)
  {
  }

  lemma SameLater(k: nat, i: nat, j: nat)
    requires k != i && k != j
    ensures forall happens, v, occurs, w, first ::
              Later(k + 1, i, happens, v, j, occurs, w, first) == Later(k, i, happens, v, j, occurs, w, first)
  {
  }

  /** It does not matter which of the two calls is named first. */
  lemma EitherFirst(s: State, t: nat, u: nat, a: Job, b: Job, o: Order, p: Order, run: seq<Action>, k: nat, e: State)
    requires TwoCalls(s, t, u, a, b, o, p, run)
    ensures TwoCalls(s, u, t, b, a, p, o, run)
    ensures AfterSteps(s, t, u, a.diff, b.diff, o, p, k, e) <==> AfterSteps(s, u, t, b.diff, a.diff, p, o, k, e)
  {
    hide LastDiff, CallAt, Tells;
    assert o.send != p.send && o.assign != p.assign;
  }

  lemma TwoCallsStep(s: State, t: nat, u: nat, a: Job, b: Job, o: Order, p: Order, run: seq<Action>, k: nat, e: State)
    requires TwoCalls(s, t, u, a, b, o, p, run) && k < |run|
    requires AfterSteps(s, t, u, a.diff, b.diff, o, p, k, e)
    ensures AfterSteps(s, t, u, a.diff, b.diff, o, p, k + 1, Step(e, run[k]))
  {
    hide AfterSteps, Step, TwoCalls;
    if Taken(o, k) {
      FirstCallSteps(s, t, u, a, b, o, p, run, k, e);
    } else if Taken(p, k) {
      EitherFirst(s, t, u, a, b, o, p, run, k, e);
      FirstCallSteps(s, u, t, b, a, p, o, run, k, e);
      EitherFirst(s, t, u, a, b, o, p, run, k + 1, Step(e, run[k]));
    } else {
      QuietSteps(s, t, u, a, b, o, p, run, k, e);
    }
  }

  lemma {:induction false} TwoCallsRun(s: State, t: nat, u: nat, a: Job, b: Job, o: Order, p: Order, run: seq<Action>, k: nat)
    requires TwoCalls(s, t, u, a, b, o, p, run) && k <= |run|
    ensures AfterSteps(s, t, u, a.diff, b.diff, o, p, k, Execute(s, run[..k]))
  {
    hide LastDiff, Step;
    if k == 0 {
      assert run[..0] == [];
    } else {
      TwoCallsRun(s, t, u, a, b, o, p, run, k - 1);
      assert run[..k][..k - 1] == run[..k - 1] && run[..k][k - 1] == run[k - 1];
      TwoCallsStep(s, t, u, a, b, o, p, run, k - 1, Execute(s, run[..k - 1]));
    }
  }

  /** The announcement of a call is right: the last difficulty sent before it is that of its job. */
  ghost predicate Announces(s: State, run: seq<Action>, o: Order, job: Job) {
    o.announce < |run| && LastDiff(Execute(s, run[..o.announce]).client.outbox) == Some(job.diff)
  }

  /** The other call sends its difficulty between the difficulty of this call, if it sends one, and its job. */
  predicate Intrudes(mine: real, first: real, theirs: real, o: Order, other: Order) {
    && Tells(theirs, first, mine, other, o) && other.send < o.announce
    && (Tells(mine, first, theirs, o, other) ==> o.send < other.send)
  }

  /** Two calls of `sendJob` interleaved in any way, with anything else but another call going on in between: with equal
      difficulties nothing can go wrong. With different ones, an announcement is wrong exactly if the other call
      intrudes, and the connection is out of step afterwards exactly if both send and the last to send is not the last
      to note. */
  lemma TwoCallsExactly(s: State, t: nat, u: nat, a: Job, b: Job, o: Order, p: Order, run: seq<Action>)
    requires TwoCalls(s, t, u, a, b, o, p, run) && InStep(s.client) && a.diff > 0.0 && b.diff > 0.0
    ensures var first := s.client.currentDiff;
            && (Announces(s, run, o, a) <==> a.diff == b.diff || !Intrudes(a.diff, first, b.diff, o, p))
            && (Announces(s, run, p, b) <==> a.diff == b.diff || !Intrudes(b.diff, first, a.diff, p, o))
            && (InStep(Execute(s, run).client) <==>
                  a.diff == b.diff || !Tells(a.diff, first, b.diff, o, p) || !Tells(b.diff, first, a.diff, p, o)
                  || (o.send < p.send <==> o.assign < p.assign))
  {
    hide LastDiff, Execute;
    TwoCallsRun(s, t, u, a, b, o, p, run, o.announce);
    TwoCallsRun(s, t, u, a, b, o, p, run, p.announce);
    TwoCallsRun(s, t, u, a, b, o, p, run, |run|);
    assert run[..|run|] == run;
  }

  /** Once out of step the connection stays wrong: a call alone announces its job rightly exactly if it finds its
      difficulty changed or the connection in step. */
  lemma AloneAnnouncesExactly(c: Client, job: Job)
    requires job.diff > 0.0
    ensures LastDiff(DiffSent(c, job).outbox) == Some(job.diff) <==> job.diff != c.currentDiff || InStep(c)
  {
    if job.diff != c.currentDiff {
      LastDiffAppend(c.outbox, SetDifficulty(job.diff));
    }
  }

  lemma FetchedDiff(m: Manager, c: Client, force: bool, clock: Clock)
    requires force || c.activeJob.None?
    requires m.defaultDiff > 0.0 && c.currentDiff == -1.0 && c.acceptedShares == 0.0
    requires WithinCap(m.generation.network, m.defaultDiff) && WithinCap(m.generation.network, DIFF_FLOOR)
    ensures var (m', c', job) := FetchedJob(m, c, force, clock);
            && job.diff == (if clock.measured <= c.startedMining then m.defaultDiff else DIFF_FLOOR)
            && m'.generation == m.generation && m'.defaultDiff == m.defaultDiff
            && c' == c.(jobs := c'.jobs, activeJob := c'.activeJob, startedMining := c'.startedMining)
            && (clock.measured <= c.startedMining ==> c'.startedMining == c.startedMining)
  {
    hide NetworkState.MiningDiff, CappedDiff, WithinCap;
    CappedDiffIsWithinCap(m.generation.network, m.defaultDiff);
    CappedDiffIsWithinCap(m.generation.network, DIFF_FLOOR);
  }

  lemma TheTwoCalls(s: State, a: Job, b: Job, run: seq<Action>)
    requires |s.calls| >= 2 && s.calls[0].Fetched? && s.calls[0].job == a && s.calls[1].Fetched? && s.calls[1].job == b
    requires run == [Check(0), Check(1), Send(0), Send(1), Assign(1), Assign(0), Announce(0), Announce(1)]
    ensures TwoCalls(s, 0, 1, a, b, Order(0, 2, 5, 6), Order(1, 3, 4, 7), run)
  {
  }

  /** A run from a fresh connection that leaves it out of step: the miner's own thread and the updater fetch jobs of
      different difficulties, the updater sends last and the miner's thread notes last. */
  lemma OutOfStepIsReachable(s: State, now: Clock, later: Clock)
    requires Initial(s) && |s.calls| >= 2 && now.measured <= s.client.startedMining < later.measured
    requires WithinCap(s.manager.generation.network, s.manager.defaultDiff)
    requires WithinCap(s.manager.generation.network, DIFF_FLOOR) && s.manager.defaultDiff != DIFF_FLOOR
    ensures var fetched := Execute(s, [Fetch(0, false, now), Fetch(1, true, later)]);
            var run := [Check(0), Check(1), Send(0), Send(1), Assign(1), Assign(0), Announce(0), Announce(1)];
            !InStep(Execute(fetched, run).client) && fetched.client.outbox == []
  {
    hide FetchedJob, WithinCap, Execute, TwoCalls;
    Execute2(s, Fetch(0, false, now), Fetch(1, true, later));
    FetchedDiff(s.manager, s.client, false, now);
    var (m, c, a) := FetchedJob(s.manager, s.client, false, now);
    FetchedDiff(m, c, true, later);
    var (_, _, b) := FetchedJob(m, c, true, later);
    var fetched := Execute(s, [Fetch(0, false, now), Fetch(1, true, later)]);
    var run := [Check(0), Check(1), Send(0), Send(1), Assign(1), Assign(0), Announce(0), Announce(1)];
    TheTwoCalls(fetched, a, b, run);
    TwoCallsExactly(fetched, 0, 1, a, b, Order(0, 2, 5, 6), Order(1, 3, 4, 7), run);
  }
}
