/** One connection over every sequential run of subscriptions, new work and submissions, with arbitrary
    clock readings (lib/stratum/StratumClientConnection.cpp, lib/stratum/JobManager.cpp,
    lib/stratum/calls/MiningSubscribe.cpp, lib/stratum/calls/MiningSubmit.cpp). */
module Sessions {
  import opened ByteStrings
  import opened Hash256
  import opened Merkle
  import opened Share
  import opened Pool

  datatype Session = Session(manager: Manager, client: Client)

  /** What can happen: the miner subscribes, the pool learns of new work, the miner submits a share. */
  datatype Event =
    | Subscribe(clock: Clock)
    | NewWork(coinbase: BuiltCoinbase, clock: Clock)
    | Submit(submission: Submission)

  /** The two hash plugins. */
  datatype Plugins = Plugins(sha256d: Hasher, hasher: Hasher)

  function Step(s: Session, e: Event, p: Plugins): Session {
    match e
    case Subscribe(clock) =>
      var (m, c) := Sent(s.manager, s.client, false, clock);
      Session(m, c)
    case NewWork(coinbase, clock) =>
      var force := coinbase.origin.network.Differs(s.manager.generation.network);
      var (m, c) := SentTo(s.client, s.manager.(generation := coinbase.origin, coinbase := coinbase), force, clock);
      Session(m, c)
    case Submit(submission) =>
      s.(client := Submitted(s.client, submission, p.sha256d, p.hasher))
  }

  function Run(s: Session, events: seq<Event>, p: Plugins): Session {
    if events == [] then s else Step(Run(s, events[..|events| - 1], p), events[|events| - 1], p)
  }

  /** A connection as the constructor leaves it. */
  predicate Fresh(s: Session) {
    && s.manager.defaultDiff > 0.0
    && s.client.jobs == [] && s.client.activeJob == None && s.client.currentDiff == -1.0
    && s.client.acceptedShares == 0.0 && s.client.outbox == []
  }

  // ---------- The invariant ----------

  predicate GoodJob(j: Job) {
    j.diff > 0.0 && WithinCap(j.generation.network, j.diff)
  }

  /** The active job is null when there are no jobs and the last one otherwise. */
  predicate ActiveIsLast(c: Client) {
    if c.jobs == [] then c.activeJob == None else c.activeJob == Some(c.jobs[|c.jobs| - 1])
  }

  function LastDiff(outbox: seq<Message>): Option<real> {
    if outbox == [] then None
    else if outbox[|outbox| - 1].SetDifficulty? then Some(outbox[|outbox| - 1].diff)
    else LastDiff(outbox[..|outbox| - 1])
  }

  /** Each job goes out while the last difficulty sent is its own. */
  ghost predicate NotifiesMatch(outbox: seq<Message>) {
    forall i :: 0 <= i < |outbox| && outbox[i].Notify? ==>
      GoodJob(outbox[i].job) && LastDiff(outbox[..i]) == Some(outbox[i].job.diff)
  }

  ghost predicate Inv(s: Session) {
    var c := s.client;
    && s.manager.defaultDiff > 0.0
    && ActiveIsLast(c)
    && (forall i :: 0 <= i < |c.jobs| ==> GoodJob(c.jobs[i]))
    && c.currentDiff == (match LastDiff(c.outbox) case None => -1.0 case Some(d) => d)
    && (c.currentDiff == -1.0 || c.currentDiff > 0.0)
    && NotifiesMatch(c.outbox)
  }

  lemma NewDiffIsUsable(c: Client, clock: Clock)
    requires c.currentDiff == -1.0 || c.currentDiff > 0.0
    ensures NewDiff(c, clock).0 == -1.0 || NewDiff(c, clock).0 > 0.0
  {
  }

  lemma CreatedJobIsGood(m: Manager, clientDiff: real, diff: real, created: uint32)
    requires m.defaultDiff > 0.0
    requires clientDiff == -1.0 || clientDiff > 0.0
    requires diff == -1.0 || diff > 0.0
    ensures GoodJob(CreatedJob(m, clientDiff, diff, created).1)
  {
    hide NetworkState.MiningDiff, CappedDiff, WithinCap;
    CappedDiffIsWithinCap(m.generation.network, ChosenDiff(diff, clientDiff, m.defaultDiff));
  }

  lemma FetchKeeps(s: Session, force: bool, clock: Clock)
    requires Inv(s)
    ensures var (m, c, job) := FetchedJob(s.manager, s.client, force, clock);
            Inv(Session(m, c)) && GoodJob(job) && c.outbox == s.client.outbox && c.acceptedShares == s.client.acceptedShares
  {
    hide NewDiff, GoodJob, CappedDiff, NotifiesMatch, LastDiff, NetworkState.MiningDiff;
    if force || s.client.activeJob.None? {
      NewDiffIsUsable(s.client, clock);
      CreatedJobIsGood(s.manager, s.client.currentDiff, NewDiff(s.client, clock).0, clock.created);
    }
  }

  lemma LastDiffAppend(outbox: seq<Message>, m: Message)
    ensures LastDiff(outbox + [m]) == if m.SetDifficulty? then Some(m.diff) else LastDiff(outbox)
  {
    assert (outbox + [m])[..|outbox|] == outbox;
  }

  lemma MatchAppend(outbox: seq<Message>, m: Message)
    requires NotifiesMatch(outbox)
    requires m.Notify? ==> GoodJob(m.job) && LastDiff(outbox) == Some(m.job.diff)
    ensures NotifiesMatch(outbox + [m])
  {
    hide GoodJob, LastDiff;
    var longer := outbox + [m];
    forall i | 0 <= i < |longer| && longer[i].Notify?
      ensures GoodJob(longer[i].job) && LastDiff(longer[..i]) == Some(longer[i].job.diff)
    {
      assert i < |outbox| ==> longer[..i] == outbox[..i];
      assert longer[..|outbox|] == outbox;
    }
  }

  lemma AnnounceKeeps(m: Manager, c: Client, job: Job, force: bool)
    requires Inv(Session(m, c)) && GoodJob(job)
    ensures Inv(Session(m, Announced(c, job, force)))
    ensures Announced(c, job, force).acceptedShares == c.acceptedShares
  {
    hide NotifiesMatch, WithinCap;
    var outbox := c.outbox;
    if job.diff != c.currentDiff {
      LastDiffAppend(outbox, SetDifficulty(job.diff));
      MatchAppend(outbox, SetDifficulty(job.diff));
      outbox := outbox + [SetDifficulty(job.diff)];
    }
    LastDiffAppend(outbox, Notify(job, force));
    MatchAppend(outbox, Notify(job, force));
  }

  lemma SendKeeps(s: Session, force: bool, clock: Clock)
    requires Inv(s)
    ensures var (m, c) := Sent(s.manager, s.client, force, clock);
            Inv(Session(m, c)) && c.acceptedShares == s.client.acceptedShares
  {
    hide Inv, FetchedJob, Announced, GoodJob;
    var (m, c, job) := FetchedJob(s.manager, s.client, force, clock);
    FetchKeeps(s, force, clock);
    AnnounceKeeps(m, c, job, force);
  }

  lemma SubmitKeeps(s: Session, submission: Submission, p: Plugins)
    requires Inv(s)
    ensures Inv(s.(client := Submitted(s.client, submission, p.sha256d, p.hasher)))
  {
    hide Judged, GoodJob, NotifiesMatch, LastDiff;
    var reply := Answer(Judged(s.client, submission, p.sha256d, p.hasher).1);
    LastDiffAppend(s.client.outbox, reply);
    MatchAppend(s.client.outbox, reply);
  }

  lemma ChangedManager(s: Session, m: Manager)
    requires Inv(s) && m.defaultDiff == s.manager.defaultDiff
    ensures Inv(Session(m, s.client)) && Inv(Session(m, Cleared(s.client)))
  {
    hide NotifiesMatch, GoodJob;
  }

  lemma StepKeeps(s: Session, e: Event, p: Plugins)
    requires Inv(s)
    ensures Inv(Step(s, e, p))
  {
    hide Inv, Sent, Submitted;
    match e
    case Subscribe(clock) =>
      SendKeeps(s, false, clock);
    case NewWork(coinbase, clock) =>
      var m := s.manager.(generation := coinbase.origin, coinbase := coinbase);
      ChangedManager(s, m);
      SendKeeps(Session(m, s.client), false, clock);
      SendKeeps(Session(m, Cleared(s.client)), true, clock);
    case Submit(submission) =>
      SubmitKeeps(s, submission, p);
  }

  /** Every job is positive and within its own network's cap, every job sent was preceded by its
      difficulty, and the active job is the last one, after every run of every connection. */
  lemma {:induction false} RunKeeps(s: Session, events: seq<Event>, p: Plugins)
    requires Fresh(s)
    ensures Inv(Run(s, events, p))
  {
    hide Step;
    if events == [] {
    } else {
      RunKeeps(s, events[..|events| - 1], p);
      StepKeeps(Run(s, events[..|events| - 1], p), events[|events| - 1], p);
    }
  }

  // ---------- Credit ----------

  /** The difficulty of the job an accepted submission was made for. */
  function Credit(s: Session, e: Event, p: Plugins): real {
    if e.Submit? && Judged(s.client, e.submission, p.sha256d, p.hasher).1 == Right
       && Lookup(s.client, e.submission.jobId).Some?
    then Lookup(s.client, e.submission.jobId).value.diff
    else 0.0
  }

  function TotalCredit(s: Session, events: seq<Event>, p: Plugins): real {
    if events == [] then 0.0
    else TotalCredit(s, events[..|events| - 1], p)
         + Credit(Run(s, events[..|events| - 1], p), events[|events| - 1], p)
  }

  lemma StepCredits(s: Session, e: Event, p: Plugins)
    requires Inv(s)
    ensures Step(s, e, p).client.acceptedShares == s.client.acceptedShares + Credit(s, e, p)
  {
    hide Inv, Sent, ShareCoinbase, ShareHeader, BlockHash, Refused, SolvesBlock;
    match e
    case Subscribe(clock) =>
      SendKeeps(s, false, clock);
    case NewWork(coinbase, clock) =>
      var m := s.manager.(generation := coinbase.origin, coinbase := coinbase);
      ChangedManager(s, m);
      SendKeeps(Session(m, s.client), false, clock);
      SendKeeps(Session(m, Cleared(s.client)), true, clock);
    case Submit(_) =>
  }

  /** `acceptedShares` is the sum of the difficulties of the accepted submissions. */
  lemma {:induction false} SharesAreCredited(s: Session, events: seq<Event>, p: Plugins)
    requires Fresh(s)
    ensures Run(s, events, p).client.acceptedShares == TotalCredit(s, events, p)
  {
    hide Step, Credit, Inv;
    if events == [] {
    } else {
      var before := Run(s, events[..|events| - 1], p);
      RunKeeps(s, events[..|events| - 1], p);
      SharesAreCredited(s, events[..|events| - 1], p);
      StepCredits(before, events[|events| - 1], p);
    }
  }

  lemma {:induction false} FirstWithIdIsHeld(jobs: seq<Job>, id: uint32)
    ensures match FirstWithId(jobs, id)
            case Some(j) => j in jobs && j.id == id
            case None => forall i :: 0 <= i < |jobs| ==> jobs[i].id != id
  {
    if jobs == [] || jobs[0].id == id {
    } else {
      FirstWithIdIsHeld(jobs[1..], id);
    }
  }

  /** While every job a client holds is within its cap, a submission that sends out a block is answered with success. */
  lemma SolvedShareIsRight(c: Client, submission: Submission, p: Plugins)
    requires forall i :: 0 <= i < |c.jobs| ==> WithinCap(c.jobs[i].generation.network, c.jobs[i].diff)
    requires c.activeJob.Some? ==> WithinCap(c.activeJob.value.generation.network, c.activeJob.value.diff)
    ensures var (credit, reply, blocks) := Judged(c, submission, p.sha256d, p.hasher);
            blocks != [] ==> reply == Right && Lookup(c, submission.jobId).Some? && credit == Lookup(c, submission.jobId).value.diff
  {
    hide WithinCap, ShareCoinbase, ShareHeader, BlockHash;
    FirstWithIdIsHeld(c.jobs, submission.jobId);
    match Lookup(c, submission.jobId)
    case None =>
    case Some(job) =>
      var header := ShareHeader(job, submission.time, submission.nonce,
                                ShareCoinbase(job, submission.extraNonce1, submission.extraNonce2), p.sha256d);
      var hash := BlockHash(header, p.hasher);
      if SolvesBlock(job, hash) {
        BlockIsNeverLowDiff(job.generation.network, job.diff, hash);
      }
  }

  /** A submission that solves a block is never answered with "low diff": whenever a block goes out to the
      network, the miner is told so and credited. */
  lemma BlocksAreAccepted(s: Session, events: seq<Event>, submission: Submission, p: Plugins)
    requires Fresh(s)
    ensures var (credit, reply, blocks) := Judged(Run(s, events, p).client, submission, p.sha256d, p.hasher);
            blocks != [] ==> reply == Right && credit > 0.0
  {
    hide Judged, NotifiesMatch, Run;
    RunKeeps(s, events, p);
    var c := Run(s, events, p).client;
    FirstWithIdIsHeld(c.jobs, submission.jobId);
    SolvedShareIsRight(c, submission, p);
  }
}
