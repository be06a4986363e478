/** Publication of new work: one updater thread and any number of client threads, interleaved at every
    lock boundary (lib/stratum/JobManager.cpp, lib/stratum/StratumClientConnection.cpp). */
module Publication {
  import opened ByteStrings
  import opened Hash256
  import opened Coinbase
  import opened Share
  import opened Pool
  import Sessions

  /** Where the updater is. Installed: the new information is in place, the coinbase is still the old one.
      Generated: the coinbase is new. Sending: it holds the connections lock; `todo` are the clients still
      to be sent a job, `cleared` the one whose jobs it has just cleared. */
  datatype Phase = Idle | Installed(force: bool) | Generated(force: bool) | Sending(force: bool, todo: set<nat>, cleared: Option<nat>)

  /** `issued` counts the jobs ever created; it is history. */
  datatype State = State(manager: Manager, clients: map<nat, Client>, phase: Phase, coinbaseId: seq<byte>, issued: nat)

  datatype Action =
    // the updater
    | Install(generation: Generation)
    | Generate(outputs: seq<Output>, time: uint32)
    | ReplaceOutputs(newOutputs: seq<Output>, time: uint32)
    | LockClients
    | Clear(client: nat)
    | Serve(client: nat, clock: Clock)
    | Finish
    // the threads of the clients
    | Ask(client: nat, clock: Clock)
    | Talk(client: nat, currentDiff: real, acceptedShares: real, outbox: seq<Message>)
    // connections come and go while nobody holds their lock
    | Connect(client: nat, now: int)
    | Disconnect(client: nat)

  predicate Enabled(s: State, a: Action) {
    match a
    case Install(_) => s.phase.Idle?
    case Generate(outputs, _) => s.phase.Installed? && |outputs| < 0x1_0000_0000_0000_0000
    case ReplaceOutputs(outputs, _) => s.phase.Idle? && |outputs| < 0x1_0000_0000_0000_0000
    case LockClients => s.phase.Generated?
    case Clear(c) => s.phase.Sending? && s.phase.force && s.phase.cleared.None? && c in s.phase.todo
    case Serve(c, _) => s.phase.Sending? && c in s.phase.todo && s.phase.cleared == if s.phase.force then Some(c) else None
    case Finish => s.phase.Sending? && s.phase.todo == {}
    case Ask(c, _) => c in s.clients
    case Talk(c, _, _, _) => c in s.clients
    case Connect(c, _) => c !in s.clients && !s.phase.Sending?
    case Disconnect(c) => c in s.clients && !s.phase.Sending?
  }

  function NewCoinbase(g: Generation, id: seq<byte>, outputs: seq<Output>, time: uint32): BuiltCoinbase
    requires |outputs| < 0x1_0000_0000_0000_0000
  {
    BuiltCoinbase(g, Build(g.network.blockHeight, 0, 0, id, outputs, time))
  }

  /** `client->job(force)`, which creates a job under the manager's lock when it needs one. */
  function Fetch(s: State, c: nat, force: bool, clock: Clock): State
    requires c in s.clients
  {
    var (m, client, _) := FetchedJob(s.manager, s.clients[c], force, clock);
    var created := force || s.clients[c].activeJob.None?;
    s.(manager := m, clients := s.clients[c := client], issued := s.issued + if created then 1 else 0)
  }

  function Next(s: State, a: Action): State
    requires Enabled(s, a)
  {
    match a
    case Install(g) =>
      s.(manager := s.manager.(generation := g), phase := Installed(g.network.Differs(s.manager.generation.network)))
    case Generate(outputs, time) =>
      s.(manager := s.manager.(coinbase := NewCoinbase(s.manager.generation, s.coinbaseId, outputs, time)),
         phase := Generated(s.phase.force))
    case ReplaceOutputs(outputs, time) =>
      s.(manager := s.manager.(coinbase := NewCoinbase(s.manager.generation, s.coinbaseId, outputs, time)),
         phase := Generated(false))
    case LockClients => s.(phase := Sending(s.phase.force, s.clients.Keys, None))
    case Clear(c) =>
      if c in s.clients then
        s.(clients := s.clients[c := Cleared(s.clients[c])], phase := s.phase.(cleared := Some(c)))
      else s
    case Serve(c, clock) =>
      if c in s.clients then
        Fetch(s, c, s.phase.force, clock).(phase := Sending(s.phase.force, s.phase.todo - {c}, None))
      else s
    case Finish => s.(phase := Idle)
    case Ask(c, clock) => Fetch(s, c, false, clock)
    case Talk(c, diff, shares, outbox) =>
      s.(clients := s.clients[c := s.clients[c].(currentDiff := diff, acceptedShares := shares, outbox := outbox)])
    case Connect(c, now) => s.(clients := s.clients[c := Client([], None, -1.0, now, 0.0, [])])
    case Disconnect(c) => s.(clients := s.clients - {c})
  }

  /** An action that is not enabled does not happen. */
  function Step(s: State, a: Action): State {
    if Enabled(s, a) then Next(s, a) else s
  }

  function Execute(s: State, actions: seq<Action>): State {
    if actions == [] then s else Step(Execute(s, actions[..|actions| - 1]), actions[|actions| - 1])
  }

  /** A pool with information and a coinbase built from it, and no connections yet. */
  predicate Initial(s: State) {
    && s.phase == Idle && s.clients == map[] && s.issued == 0 && s.manager.jobCounter == 0
    && s.manager.coinbase.origin == s.manager.generation
    && HeightOf(s.manager.coinbase.tx.raw) == Some(s.manager.generation.network.blockHeight)
  }

  const IDS: nat := 0x1_0000_0000

  // ---------- Jobs for the current block ----------

  predicate SameBlock(g: Generation, h: Generation) {
    g.network.blockHeight == h.network.blockHeight && g.network.previousBlock == h.network.previousBlock
  }

  /** The height inside the transaction is that of the information it was generated from. */
  predicate CarriesHeight(b: BuiltCoinbase) {
    HeightOf(b.tx.raw) == Some(b.origin.network.blockHeight)
  }

  predicate Current(j: Job, g: Generation) {
    SameBlock(j.generation, g) && SameBlock(j.coinbase.origin, g)
  }

  predicate AllCurrent(c: Client, g: Generation) {
    forall i :: 0 <= i < |c.jobs| ==> Current(c.jobs[i], g)
  }

  predicate AllCarryHeight(c: Client) {
    forall i :: 0 <= i < |c.jobs| ==> CarriesHeight(c.jobs[i].coinbase)
  }

  /** The clients whose jobs are known to be current in this phase. */
  predicate Settled(s: State, c: nat) {
    match s.phase
    case Idle => true
    case Installed(force) => !force
    case Generated(force) => !force
    case Sending(force, todo, cleared) => !force || c !in todo || cleared == Some(c)
  }

  ghost predicate Inv(s: State) {
    var g := s.manager.generation;
    && CarriesHeight(s.manager.coinbase)
    && ((s.phase.Installed? && s.phase.force) || SameBlock(s.manager.coinbase.origin, g))
    && (s.phase.Sending? ==> s.phase.todo <= s.clients.Keys)
    && (forall c :: c in s.clients ==>
          AllCarryHeight(s.clients[c]) && Sessions.ActiveIsLast(s.clients[c])
          && (Settled(s, c) ==> AllCurrent(s.clients[c], g)))
  }

  /** Nothing changes but one client's list and the counters: either the active job is handed out, or a job made from
      the manager's information and coinbase takes the next id and goes to the end of the list. */
  lemma FetchShape(s: State, c: nat, force: bool, clock: Clock)
    requires c in s.clients
    ensures var t := Fetch(s, c, force, clock);
            var was, now := s.clients[c], t.clients[c];
            && t == s.(manager := s.manager.(jobCounter := t.manager.jobCounter), clients := s.clients[c := now], issued := t.issued)
            && (if !force && was.activeJob.Some? then t == s.(clients := s.clients[c := was])
                else && |now.jobs| == |was.jobs| + 1 && now.jobs[..|was.jobs|] == was.jobs
                     && now.activeJob == Some(now.jobs[|was.jobs|])
                     && now.jobs[|was.jobs|].generation == s.manager.generation
                     && now.jobs[|was.jobs|].coinbase == s.manager.coinbase
                     && now.jobs[|was.jobs|].id == t.manager.jobCounter == (s.manager.jobCounter + 1) % IDS
                     && t.issued == s.issued + 1)
  {
    hide NewDiff, CappedDiff, NetworkState.MiningDiff;
  }

  lemma ListGrows(c: Client, d: Client, g: Generation)
    requires |d.jobs| == |c.jobs| + 1 && d.jobs[..|c.jobs|] == c.jobs && d.activeJob == Some(d.jobs[|c.jobs|])
    ensures Sessions.ActiveIsLast(d)
    ensures AllCarryHeight(c) && CarriesHeight(d.jobs[|c.jobs|].coinbase) ==> AllCarryHeight(d)
    ensures AllCurrent(c, g) && Current(d.jobs[|c.jobs|], g) ==> AllCurrent(d, g)
  {
    hide CarriesHeight, Current;
    assert forall i :: 0 <= i < |c.jobs| ==> d.jobs[i] == c.jobs[i];
  }

  lemma FetchKeeps(s: State, c: nat, force: bool, clock: Clock)
    requires Inv(s) && c in s.clients
    requires s.phase.Sending? && s.phase.force && !Settled(s, c) ==> !force
    ensures var t := Fetch(s, c, force, clock);
            Inv(t) && t.phase == s.phase && t.manager == s.manager.(jobCounter := t.manager.jobCounter)
            && t.clients.Keys == s.clients.Keys
  {
    hide Fetch, CarriesHeight, AllCurrent, AllCarryHeight, Sessions.ActiveIsLast, SameBlock;
    FetchShape(s, c, force, clock);
    if force || s.clients[c].activeJob.None? {
      ListGrows(s.clients[c], Fetch(s, c, force, clock).clients[c], s.manager.generation);
      GenerationIsItself(s.manager.generation);
    }
  }

  lemma GenerationIsItself(g: Generation)
    ensures SameBlock(g, g)
  {
  }

  lemma NewCoinbaseCarriesHeight(g: Generation, id: seq<byte>, outputs: seq<Output>, time: uint32)
    requires |outputs| < 0x1_0000_0000_0000_0000
    ensures CarriesHeight(NewCoinbase(g, id, outputs, time))
  {
    HeightReadsBack(g.network.blockHeight, 0, 0, id, outputs, time);
  }

  lemma InstallKeeps(s: State, g: Generation)
    requires Inv(s) && s.phase.Idle?
    ensures Inv(Next(s, Install(g)))
  {
    hide CarriesHeight, AllCarryHeight, Sessions.ActiveIsLast;
  }

  /** An empty list, and the list of another client, meet what is asked of a list. */
  lemma SameList(c: Client, d: Client, g: Generation)
    requires (d.jobs == [] && d.activeJob.None?) || (d.jobs == c.jobs && d.activeJob == c.activeJob)
    ensures AllCarryHeight(c) ==> AllCarryHeight(d)
    ensures Sessions.ActiveIsLast(c) ==> Sessions.ActiveIsLast(d)
    ensures AllCurrent(c, g) || d.jobs == [] ==> AllCurrent(d, g)
    ensures d.jobs == [] && d.activeJob.None? ==> AllCarryHeight(d) && Sessions.ActiveIsLast(d)
  {
    hide CarriesHeight, Current;
  }

  lemma NextKeeps(s: State, a: Action)
    requires Inv(s) && Enabled(s, a)
    ensures Inv(Next(s, a))
  {
    hide FetchedJob, CarriesHeight, Build, Fetch, AllCurrent, AllCarryHeight, Sessions.ActiveIsLast;
    match a
    case Install(g) =>
      InstallKeeps(s, g);
    case Generate(outputs, time) =>
      NewCoinbaseCarriesHeight(s.manager.generation, s.coinbaseId, outputs, time);
    case ReplaceOutputs(outputs, time) =>
      NewCoinbaseCarriesHeight(s.manager.generation, s.coinbaseId, outputs, time);
    case Serve(c, clock) =>
      FetchKeeps(s, c, s.phase.force, clock);
    case Ask(c, clock) =>
      FetchKeeps(s, c, false, clock);
    case Clear(c) =>
      SameList(s.clients[c], Next(s, a).clients[c], s.manager.generation);
    case Talk(c, _, _, _) =>
      SameList(s.clients[c], Next(s, a).clients[c], s.manager.generation);
    case Connect(c, _) =>
      SameList(Next(s, a).clients[c], Next(s, a).clients[c], s.manager.generation);
    case _ =>
  }

  lemma StepKeeps(s: State, a: Action)
    requires Inv(s)
    ensures Inv(Step(s, a))
  {
    hide Inv, Next;
    if Enabled(s, a) {
      NextKeeps(s, a);
    }
  }

  lemma {:induction false} RunKeeps(s: State, actions: seq<Action>)
    requires Initial(s)
    ensures Inv(Execute(s, actions))
  {
    hide Step;
    if actions == [] {
    } else {
      RunKeeps(s, actions[..|actions| - 1]);
      StepKeeps(Execute(s, actions[..|actions| - 1]), actions[|actions| - 1]);
    }
  }

  /** Whenever no update is in progress, every job that any client holds is for the current height and
      previous block, and its coinbase was generated for that block and carries that height. */
  lemma IdleMeansCurrent(s: State, actions: seq<Action>, c: nat, i: nat)
    requires Initial(s) && Execute(s, actions).phase == Idle
    requires c in Execute(s, actions).clients && i < |Execute(s, actions).clients[c].jobs|
    ensures var t := Execute(s, actions);
            var job := t.clients[c].jobs[i];
            && SameBlock(job.generation, t.manager.generation)
            && SameBlock(job.coinbase.origin, t.manager.generation)
            && HeightOf(job.coinbase.tx.raw) == Some(t.manager.generation.network.blockHeight)
  {
    hide Step, HeightOf;
    RunKeeps(s, actions);
  }

  /** In the middle of an update that is not so: a client that asks between the new information and the
      new coinbase gets a job whose coinbase carries the old height. */
  lemma MidUpdateMismatch(s: State, g: Generation, clock: Clock)
    requires Initial(s) && g.network.blockHeight != s.manager.generation.network.blockHeight
    ensures var t := Execute(s, [Connect(0, clock.measured), Install(g), Ask(0, clock)]);
            && t.phase == Installed(true) && 0 in t.clients && |t.clients[0].jobs| == 1
            && var job := t.clients[0].jobs[0];
               job.generation == g && HeightOf(job.coinbase.tx.raw) == Some(s.manager.generation.network.blockHeight)
               && HeightOf(job.coinbase.tx.raw) != Some(job.generation.network.blockHeight)
  {
    hide NewDiff, CappedDiff, NetworkState.MiningDiff, HeightOf;
    var actions := [Connect(0, clock.measured), Install(g), Ask(0, clock)];
    assert actions[..2] == [Connect(0, clock.measured), Install(g)];
    assert actions[..2][..1] == [Connect(0, clock.measured)];
    assert Execute(s, actions[..2][..1]) == Step(Execute(s, []), Connect(0, clock.measured));
  }

  lemma StepPairs(s: State, a: Action)
    requires Inv(s)
    requires s.phase.Installed? && s.phase.force ==> !SameBlock(s.manager.coinbase.origin, s.manager.generation)
    ensures var t := Step(s, a);
            t.phase.Installed? && t.phase.force ==> !SameBlock(t.manager.coinbase.origin, t.manager.generation)
  {
    hide FetchedJob, Fetch, CarriesHeight, AllCarryHeight, AllCurrent, Build;
    if Enabled(s, a) {
      match a
      case Ask(c, clock) =>
        FetchKeeps(s, c, false, clock);
      case _ =>
    }
  }

  /** Exactly when the information in place belongs to another block than the coinbase in place: between the two
      halves of an update that changes the block. */
  lemma {:induction false} MismatchedExactly(s: State, actions: seq<Action>)
    requires Initial(s)
    ensures var t := Execute(s, actions);
            SameBlock(t.manager.coinbase.origin, t.manager.generation) <==> !(t.phase.Installed? && t.phase.force)
  {
    hide Step, SameBlock;
    RunKeeps(s, actions);
    if actions == [] {
      InitialPairs(s);
    } else {
      var before := actions[..|actions| - 1];
      MismatchedExactly(s, before);
      RunKeeps(s, before);
      StepPairs(Execute(s, before), actions[|actions| - 1]);
    }
    InvPairs(Execute(s, actions));
  }

  lemma InitialPairs(s: State)
    requires Initial(s)
    ensures SameBlock(s.manager.coinbase.origin, s.manager.generation)
  {
  }

  lemma InvPairs(s: State)
    requires Inv(s)
    ensures (s.phase.Installed? && s.phase.force) || SameBlock(s.manager.coinbase.origin, s.manager.generation)
  {
  }

  /** The job last created for a client. */
  function Newest(s: State, c: nat): Option<Job> {
    if c in s.clients && s.clients[c].jobs != [] then Some(s.clients[c].jobs[|s.clients[c].jobs| - 1]) else None
  }

  predicate Matched(j: Option<Job>) {
    j.Some? && SameBlock(j.value.coinbase.origin, j.value.generation)
  }

  lemma CreatedPair(s: State, c: nat, force: bool, clock: Clock)
    requires c in s.clients && (force || s.clients[c].activeJob.None?)
    ensures Matched(Newest(Fetch(s, c, force, clock), c)) <==> SameBlock(s.manager.coinbase.origin, s.manager.generation)
  {
    hide Fetch, SameBlock;
    FetchShape(s, c, force, clock);
  }

  lemma AskPair(t: State, c: nat, clock: Clock)
    requires c in t.clients && t.clients[c].activeJob.None?
    ensures Matched(Newest(Step(t, Ask(c, clock)), c)) <==> SameBlock(t.manager.coinbase.origin, t.manager.generation)
  {
    hide Fetch, SameBlock, Matched, Newest;
    CreatedPair(t, c, false, clock);
  }

  lemma ServePair(t: State, c: nat, clock: Clock)
    requires Enabled(t, Serve(c, clock)) && c in t.clients && (t.phase.force || t.clients[c].activeJob.None?)
    ensures Matched(Newest(Step(t, Serve(c, clock)), c)) <==> SameBlock(t.manager.coinbase.origin, t.manager.generation)
  {
    hide Fetch, SameBlock, Matched;
    CreatedPair(t, c, t.phase.force, clock);
  }

  /** In every interleaving, a job that a client's thread creates pairs its information with a coinbase for another
      block if and only if it is created between the two halves of an update that changes the block. */
  lemma AskedJobMatchesExactly(s: State, actions: seq<Action>, c: nat, clock: Clock)
    requires Initial(s) && c in Execute(s, actions).clients && Execute(s, actions).clients[c].activeJob.None?
    ensures var t := Execute(s, actions);
            Matched(Newest(Step(t, Ask(c, clock)), c)) <==> !(t.phase.Installed? && t.phase.force)
  {
    hide Execute, Step, SameBlock, Matched, Newest;
    MismatchedExactly(s, actions);
    AskPair(Execute(s, actions), c, clock);
  }

  /** A job that the updater creates is always matched. */
  lemma ServedJobMatches(s: State, actions: seq<Action>, c: nat, clock: Clock)
    requires Initial(s) && Enabled(Execute(s, actions), Serve(c, clock)) && c in Execute(s, actions).clients
    requires Execute(s, actions).phase.force || Execute(s, actions).clients[c].activeJob.None?
    ensures Matched(Newest(Step(Execute(s, actions), Serve(c, clock)), c))
  {
    hide Execute, Step, SameBlock, Matched, Newest;
    MismatchedExactly(s, actions);
    ServePair(Execute(s, actions), c, clock);
  }

  // ---------- Blocks are accepted in every interleaving ----------

  predicate AllWithinCap(c: Client) {
    && (forall i :: 0 <= i < |c.jobs| ==> WithinCap(c.jobs[i].generation.network, c.jobs[i].diff))
    && (c.activeJob.Some? ==> WithinCap(c.activeJob.value.generation.network, c.activeJob.value.diff))
  }

  lemma FetchStaysWithinCap(s: State, c: nat, force: bool, clock: Clock)
    requires c in s.clients && AllWithinCap(s.clients[c])
    ensures var t := Fetch(s, c, force, clock);
            t.clients == s.clients[c := t.clients[c]] && AllWithinCap(t.clients[c])
  {
    hide NewDiff, WithinCap, CappedDiff, NetworkState.MiningDiff;
    var m := s.manager;
    CappedDiffIsWithinCap(m.generation.network,
                          ChosenDiff(NewDiff(s.clients[c], clock).0, s.clients[c].currentDiff, m.defaultDiff));
  }

  lemma StepStaysWithinCap(s: State, a: Action)
    requires forall c :: c in s.clients ==> AllWithinCap(s.clients[c])
    ensures forall c :: c in Step(s, a).clients ==> AllWithinCap(Step(s, a).clients[c])
  {
    hide Fetch, WithinCap, Build;
    if Enabled(s, a) {
      match a
      case Serve(c, clock) =>
        if c in s.clients {
          FetchStaysWithinCap(s, c, s.phase.force, clock);
        }
      case Ask(c, clock) =>
        FetchStaysWithinCap(s, c, false, clock);
      case _ =>
    }
  }

  lemma {:induction false} RunStaysWithinCap(s: State, actions: seq<Action>)
    requires Initial(s)
    ensures forall c :: c in Execute(s, actions).clients ==> AllWithinCap(Execute(s, actions).clients[c])
  {
    hide Step, AllWithinCap;
    if actions == [] {
    } else {
      RunStaysWithinCap(s, actions[..|actions| - 1]);
      StepStaysWithinCap(Execute(s, actions[..|actions| - 1]), actions[|actions| - 1]);
    }
  }

  /** Whatever the threads do, no client's share that solves a block of its job is refused as "low diff". */
  lemma BlocksAreAccepted(s: State, actions: seq<Action>, c: nat, submission: Submission, p: Sessions.Plugins)
    requires Initial(s) && c in Execute(s, actions).clients
    ensures var (_, reply, blocks) := Judged(Execute(s, actions).clients[c], submission, p.sha256d, p.hasher);
            blocks != [] ==> reply == Right
  {
    RunStaysWithinCap(s, actions);
    Sessions.SolvedShareIsRight(Execute(s, actions).clients[c], submission, p);
  }

  // ---------- Job ids ----------

  predicate IdsWithin(c: Client, n: nat) {
    forall i :: 0 <= i < |c.jobs| ==> 1 <= c.jobs[i].id <= n
  }

  predicate Increasing(c: Client) {
    forall i, j :: 0 <= i < j < |c.jobs| ==> c.jobs[i].id < c.jobs[j].id
  }

  predicate NoSharedId(c: Client, d: Client) {
    forall i, j :: 0 <= i < |c.jobs| && 0 <= j < |d.jobs| ==> c.jobs[i].id != d.jobs[j].id
  }

  ghost predicate UniqueIds(s: State) {
    && (forall c :: c in s.clients ==> IdsWithin(s.clients[c], s.issued) && Increasing(s.clients[c]))
    && (forall c, d :: c in s.clients && d in s.clients && c != d ==> NoSharedId(s.clients[c], s.clients[d]))
  }

  ghost predicate IdInv(s: State) {
    s.manager.jobCounter == s.issued % IDS && (s.issued < IDS ==> UniqueIds(s))
  }

  lemma AppendedIds(c: Client, d: Client, n: nat)
    requires IdsWithin(c, n) && Increasing(c)
    requires |d.jobs| == |c.jobs| + 1 && d.jobs[..|c.jobs|] == c.jobs && d.jobs[|c.jobs|].id == n + 1
    ensures IdsWithin(d, n + 1) && Increasing(d)
    ensures forall other: Client :: IdsWithin(other, n) && NoSharedId(c, other) ==> NoSharedId(d, other) && NoSharedId(other, d)
  {
    assert forall i :: 0 <= i < |c.jobs| ==> d.jobs[i] == c.jobs[i];
  }

  lemma FetchKeepsIds(s: State, c: nat, force: bool, clock: Clock)
    requires IdInv(s) && c in s.clients
    ensures IdInv(Fetch(s, c, force, clock))
  {
    hide Fetch, IdsWithin, Increasing, NoSharedId;
    FetchShape(s, c, force, clock);
    var t := Fetch(s, c, force, clock);
    if s.issued < t.issued < IDS {
      AppendedIds(s.clients[c], t.clients[c], s.issued);
      forall d | d in s.clients ensures IdsWithin(s.clients[d], t.issued) {
        WiderIds(s.clients[d], s.issued);
      }
    } else if t.issued < IDS {
      SameIds(s.clients[c], t.clients[c]);
    }
  }

  lemma WiderIds(c: Client, n: nat)
    requires IdsWithin(c, n)
    ensures IdsWithin(c, n + 1)
  {
  }

  lemma SameIds(c: Client, d: Client)
    requires c.jobs == d.jobs
    ensures forall n :: IdsWithin(c, n) == IdsWithin(d, n)
    ensures Increasing(c) == Increasing(d)
    ensures forall other :: NoSharedId(c, other) == NoSharedId(d, other) && NoSharedId(other, c) == NoSharedId(other, d)
  {
  }

  lemma NoIds(d: Client)
    requires d.jobs == []
    ensures forall n :: IdsWithin(d, n)
    ensures Increasing(d)
    ensures forall other :: NoSharedId(d, other) && NoSharedId(other, d)
  {
  }

  lemma StepKeepsIds(s: State, a: Action)
    requires IdInv(s)
    ensures IdInv(Step(s, a))
  {
    hide FetchedJob, Build, Fetch, IdsWithin, Increasing, NoSharedId;
    if Enabled(s, a) {
      var t := Next(s, a);
      match a
      case Serve(c, clock) =>
        if c in s.clients {
          FetchKeepsIds(s, c, s.phase.force, clock);
        }
      case Ask(c, clock) =>
        FetchKeepsIds(s, c, false, clock);
      case Clear(c) =>
        if c in s.clients {
          NoIds(t.clients[c]);
        }
      case Connect(c, _) =>
        NoIds(t.clients[c]);
      case Talk(c, _, _, _) =>
        SameIds(s.clients[c], t.clients[c]);
      case _ =>
    }
  }

  lemma {:induction false} RunKeepsIds(s: State, actions: seq<Action>)
    requires Initial(s)
    ensures IdInv(Execute(s, actions))
  {
    hide Step;
    if actions == [] {
    } else {
      RunKeepsIds(s, actions[..|actions| - 1]);
      StepKeepsIds(Execute(s, actions[..|actions| - 1]), actions[|actions| - 1]);
    }
  }

  lemma LookupInOneList(c: Client, id: uint32, job: Job)
    requires Sessions.ActiveIsLast(c) && Increasing(c)
    ensures Lookup(c, id) == Some(job) <==> job in c.jobs && job.id == id
  {
    Sessions.FirstWithIdIsHeld(c.jobs, id);
  }

  /** While the counter has not wrapped, `getActiveJob` with its shortcut finds a job exactly when the
      client holds one of that id, finds that job, and no other client holds one of that id. */
  lemma LookupIsExact(s: State, actions: seq<Action>, c: nat, id: uint32, job: Job)
    requires Initial(s) && Execute(s, actions).issued < IDS && c in Execute(s, actions).clients
    ensures var t := Execute(s, actions);
            && (Lookup(t.clients[c], id) == Some(job) <==> job in t.clients[c].jobs && job.id == id)
            && forall d :: d in t.clients && d != c ==> NoSharedId(t.clients[c], t.clients[d])
  {
    hide Step, Lookup, Increasing, NoSharedId;
    RunKeeps(s, actions);
    RunKeepsIds(s, actions);
    LookupInOneList(Execute(s, actions).clients[c], id, job);
  }

  /** An id that was issued and that client `c` does not hold. */
  ghost predicate NotHeld(s: State, c: nat, id: uint32) {
    && 1 <= id <= s.issued
    && (c in s.clients ==> forall i :: 0 <= i < |s.clients[c].jobs| ==> s.clients[c].jobs[i].id != id)
  }

  lemma StepKeepsNotHeld(s: State, a: Action, c: nat, id: uint32)
    requires IdInv(s) && Step(s, a).issued < IDS && NotHeld(s, c, id)
    ensures NotHeld(Step(s, a), c, id) && s.issued <= Step(s, a).issued
  {
    hide FetchedJob, Build, Fetch, UniqueIds;
    if Enabled(s, a) {
      match a
      case Serve(d, clock) =>
        if d in s.clients {
          FetchShape(s, d, s.phase.force, clock);
        }
      case Ask(d, clock) =>
        FetchShape(s, d, false, clock);
      case _ =>
    }
  }

  /** An id that a client no longer holds, after `clearJobs` or because it never had it, is never found again. */
  lemma {:induction false} DroppedIdStaysDropped(s: State, before: seq<Action>, after: seq<Action>, c: nat, id: uint32)
    requires Initial(s) && NotHeld(Execute(s, before), c, id) && Execute(s, before + after).issued < IDS
    requires c in Execute(s, before + after).clients
    ensures Lookup(Execute(s, before + after).clients[c], id) == None
  {
    hide Step;
    RunKeepsNotHeld(s, before, after, c, id);
    RunKeeps(s, before + after);
    Sessions.FirstWithIdIsHeld(Execute(s, before + after).clients[c].jobs, id);
  }

  lemma {:induction false} RunKeepsNotHeld(s: State, before: seq<Action>, after: seq<Action>, c: nat, id: uint32)
    requires Initial(s) && NotHeld(Execute(s, before), c, id) && Execute(s, before + after).issued < IDS
    ensures NotHeld(Execute(s, before + after), c, id)
  {
    hide Step, NotHeld, IdInv, Execute, Initial;
    if after == [] {
      assert before + after == before;
    } else {
      var shorter := after[..|after| - 1];
      ExecuteOneMore(s, before, after);
      IssuedGrows(Execute(s, before + shorter), after[|after| - 1]);
      RunKeepsNotHeld(s, before, shorter, c, id);
      RunKeepsIds(s, before + shorter);
      StepKeepsNotHeld(Execute(s, before + shorter), after[|after| - 1], c, id);
    }
  }

  lemma ExecuteOneMore(s: State, before: seq<Action>, after: seq<Action>)
    requires after != []
    ensures Execute(s, before + after) == Step(Execute(s, before + after[..|after| - 1]), after[|after| - 1])
  {
    hide Step;
    var all := before + after;
    assert all[..|all| - 1] == before + after[..|after| - 1] && all[|all| - 1] == after[|after| - 1];
  }

  lemma IssuedGrows(s: State, a: Action)
    ensures s.issued <= Step(s, a).issued
  {
    hide FetchedJob, Build;
  }
}
