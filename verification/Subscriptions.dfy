/** Subscriptions of a message bus client, kept in step with its relay over a connection that drops and reconnects
    (lib/messagebus/MessageBusClient.cpp, lib/socket/ReconnectingClient.cpp, mbus-relayd/BusConnection.cpp,
    mbus-relayd/MessageBusServer.cpp). */
module Subscriptions {
  import opened ByteStrings
  import opened MessageBus

  type Cls = seq<byte>

  // ---------- The client's calls ----------

  datatype Api = Set(classes: seq<Cls>) | Subscribe(cls: Cls) | Unsubscribe(cls: Cls)

  /** A list after the first occurrence of an element is erased. */
  function Without(s: seq<Cls>, c: Cls): (r: seq<Cls>)
    requires c in s
    ensures |r| == |s| - 1
  {
    if s[0] == c then s[1..] else [s[0]] + Without(s[1..], c)
  }

  /** The list that a call asks for. */
  function Wanted(subscriptions: seq<Cls>, api: Api): seq<Cls> {
    match api
    case Set(classes) => classes
    case Subscribe(c) => if c in subscriptions then subscriptions else subscriptions + [c]
    case Unsubscribe(c) => if c in subscriptions then Without(subscriptions, c) else subscriptions
  }

  /** `subscribe` keeps the list, adds at most its class, and never lists a class twice that was listed once. */
  lemma SubscribeExtends(subscriptions: seq<Cls>, c: Cls)
    ensures var wanted := Wanted(subscriptions, Subscribe(c));
            && subscriptions <= wanted && c in wanted && |wanted| <= |subscriptions| + 1
            && (forall d :: d != c ==> multiset(wanted)[d] == multiset(subscriptions)[d])
            && (multiset(subscriptions)[c] <= 1 ==> multiset(wanted)[c] == 1)
  {
    assert c in subscriptions <==> c in multiset(subscriptions);
  }

  /** Erasing takes away one occurrence and nothing else, so `unsubscribe` leaves a class subscribed exactly if it
      was listed more than once. */
  lemma {:induction false} WithoutRemovesOne(s: seq<Cls>, c: Cls)
    requires c in s
    ensures multiset(Without(s, c)) == multiset(s) - multiset{c}
    ensures c in Without(s, c) <==> multiset(s)[c] > 1
  {
    HeadCounts(s);
    if s[0] == c {
    } else {
      WithoutRemovesOne(s[1..], c);
      hide Without;
      var rest := Without(s[1..], c);
      assert [s[0]] + rest == Without(s, c) by {
        WithoutLater(s, c);
      }
      HeadCounts([s[0]] + rest);
      assert ([s[0]] + rest)[1..] == rest;
    }
  }

  lemma HeadCounts(s: seq<Cls>)
    requires s != []
    ensures multiset(s) == multiset{s[0]} + multiset(s[1..])
    ensures forall c :: c in s <==> multiset(s)[c] > 0
  {
    assert s == [s[0]] + s[1..];
    assert forall c :: c in s <==> c in multiset(s);
  }

  lemma WithoutLater(s: seq<Cls>, c: Cls)
    requires c in s && s[0] != c
    ensures c in s[1..] && Without(s, c) == [s[0]] + Without(s[1..], c)
  {
  }

  /** The client object; `sent` holds the lists it has written to its socket. */
  class MessageBusClient {
    var subscriptions: seq<Cls>
    var sent: seq<seq<Cls>>

    constructor ()
      ensures subscriptions == [] && sent == []
    {
      subscriptions, sent := [], [];
    }

    method SetSubscriptions(messageClasses: seq<Cls>)
      modifies this
      ensures subscriptions == Wanted(old(subscriptions), Set(messageClasses)) == messageClasses
      ensures sent == old(sent) + if subscriptions == old(subscriptions) then [] else [subscriptions]
    {
      if messageClasses != subscriptions {
        sent := sent + [messageClasses];
        subscriptions := messageClasses;
      }
    }

    method SubscribeTo(messageClass: Cls)
      modifies this
      ensures subscriptions == Wanted(old(subscriptions), Subscribe(messageClass))
      ensures old(subscriptions) <= subscriptions && messageClass in subscriptions
      ensures subscriptions == old(subscriptions)
              || (messageClass !in old(subscriptions) && |subscriptions| == |old(subscriptions)| + 1)
      ensures sent == old(sent) + if subscriptions == old(subscriptions) then [] else [subscriptions]
    {
      for i := 0 to |subscriptions|
        invariant messageClass !in subscriptions[..i] && unchanged(this)
      {
        if subscriptions[i] == messageClass {
          return;
        }
      }
      subscriptions := subscriptions + [messageClass];
      sent := sent + [subscriptions];
    }

    method UnsubscribeFrom(messageClass: Cls)
      modifies this
      ensures subscriptions == Wanted(old(subscriptions), Unsubscribe(messageClass))
      ensures multiset(subscriptions) == multiset(old(subscriptions)) - multiset{messageClass}
      ensures sent == old(sent) + if subscriptions == old(subscriptions) then [] else [subscriptions]
    {
      for i := 0 to |subscriptions|
        invariant messageClass !in subscriptions[..i] && unchanged(this)
      {
        if subscriptions[i] == messageClass {
          WithoutAt(subscriptions, messageClass, i);
          WithoutRemovesOne(subscriptions, messageClass);
          subscriptions := subscriptions[..i] + subscriptions[i + 1..];
          sent := sent + [subscriptions];
          return;
        }
      }
    }

    method OnReconnect()
      modifies this
      ensures subscriptions == old(subscriptions) && sent == old(sent) + [subscriptions]
    {
      sent := sent + [subscriptions];
    }
  }

  lemma {:induction false} WithoutAt(s: seq<Cls>, c: Cls, i: nat)
    requires i < |s| && s[i] == c && c !in s[..i]
    ensures c in s && Without(s, c) == s[..i] + s[i + 1..]
  {
    if i == 0 {
    } else {
      assert s[0] == s[..i][0];
      assert s[..i][1..] == s[1..][..i - 1];
      WithoutAt(s[1..], c, i - 1);
      assert s[..i] + s[i + 1..] == [s[0]] + (s[1..][..i - 1] + s[1..][i..]);
    }
  }

  // ---------- Client and relay over a connection ----------

  /** The connection as seen from the client's receiving thread, which greets the relay with the client's list after
      each reconnect: first it reads the list, then it sends it. */
  datatype Link = Down | Connected | Read(greeting: seq<Cls>) | Greeted

  /** The call another thread has in progress: `setSubscriptions` sends and then assigns, the other two edit and
      then send. */
  datatype Call = NoCall | Assigning(classes: seq<Cls>) | Sending

  /** `channel` is first in, first out; `relay` is the list of the relay's connection object. */
  datatype State = State(subscriptions: seq<Cls>, call: Call, link: Link, channel: seq<seq<Cls>>, relay: seq<Cls>)

  datatype Action = Start(api: Api) | Finish | Drop | Reconnect | ReadList | Greet | Deliver

  /** The list the client will hold when the call in progress ends. */
  function Target(s: State): seq<Cls> {
    if s.call.Assigning? then s.call.classes else s.subscriptions
  }

  /** The list the relay will hold when the channel is empty. */
  function Effective(s: State): seq<Cls> {
    if s.channel == [] then s.relay else s.channel[|s.channel| - 1]
  }

  /** A call's message; while the connection is down it is lost. */
  function Written(s: State, classes: seq<Cls>): State {
    if s.link.Down? then s else s.(channel := s.channel + [classes])
  }

  predicate Enabled(s: State, a: Action) {
    match a
    case Start(_) => s.call.NoCall?
    case Finish => !s.call.NoCall?
    case Drop => !s.link.Down?
    case Reconnect => s.link.Down?
    case ReadList => s.link.Connected?
    case Greet => s.link.Read?
    case Deliver => s.channel != []
  }

  function Next(s: State, a: Action): State
    requires Enabled(s, a)
  {
    match a
    case Start(api) =>
      var wanted := Wanted(s.subscriptions, api);
      if wanted == s.subscriptions then s
      else if api.Set? then Written(s, wanted).(call := Assigning(wanted))
      else s.(subscriptions := wanted, call := Sending)
    case Finish =>
      (match s.call
       case Assigning(classes) => s.(subscriptions := classes, call := NoCall)
       case _ => Written(s, s.subscriptions).(call := NoCall))
    case Drop => s.(link := Down, channel := [], relay := [])
    case Reconnect => s.(link := Connected)
    case ReadList => s.(link := Read(s.subscriptions))
    case Greet => s.(link := Greeted, channel := s.channel + [s.link.greeting])
    case Deliver => s.(relay := s.channel[0], channel := s.channel[1..])
  }

  /** An action that is not enabled does not happen. */
  function Step(s: State, a: Action): State {
    if Enabled(s, a) then Next(s, a) else s
  }

  function Execute(s: State, run: seq<Action>): State {
    if run == [] then s else Step(Execute(s, run[..|run| - 1]), run[|run| - 1])
  }

  /** After construction both lists are empty; there is no greeting then, because the constructor of the base class
      does not reach the override. */
  predicate Initial(s: State) {
    && s.subscriptions == [] && s.call.NoCall? && (s.link.Down? || s.link.Greeted?) && s.channel == [] && s.relay == []
  }

  // ---------- Agreement over every run ----------

  /** The step makes a call write its list to a live connection. */
  predicate Writes(s: State, a: Action) {
    && !s.link.Down?
    && match a
       case Start(api) => s.call.NoCall? && api.Set? && Wanted(s.subscriptions, api) != s.subscriptions
       case Finish => s.call.Sending?
       case _ => false
  }

  /** The list that the last greeting of a run carried, while no call has written since and the connection stands. */
  function Standing(s: State, run: seq<Action>): Option<seq<Cls>> {
    if run == [] then None
    else
      var before, a := Execute(s, run[..|run| - 1]), run[|run| - 1];
      if Enabled(before, a) && a.Greet? then Some(before.link.greeting)
      else if (Enabled(before, a) && a.Drop?) || Writes(before, a) then None
      else Standing(s, run[..|run| - 1])
  }

  /** What is known of a state when `standing` is the standing greeting. */
  ghost predicate Inv(s: State, standing: Option<seq<Cls>>) {
    && (s.link.Down? ==> s.channel == [] && s.relay == [])
    && (!s.link.Greeted? ==> standing.None?)
    && (s.link.Greeted? ==>
          if standing.Some? then Effective(s) == standing.value else s.call.Sending? || Effective(s) == Target(s))
  }

  lemma DeliverKeepsEffective(s: State)
    requires s.channel != []
    ensures Effective(Next(s, Deliver)) == Effective(s)
  {
  }

  lemma StepKeeps(s: State, a: Action, standing: Option<seq<Cls>>)
    requires Inv(s, standing) && Enabled(s, a)
    ensures Inv(Next(s, a), if a.Greet? then Some(s.link.greeting) else if a.Drop? || Writes(s, a) then None else standing)
  {
    hide Wanted;
    if a.Deliver? {
      DeliverKeepsEffective(s);
    }
  }

  lemma {:induction false} RunKeeps(s: State, run: seq<Action>)
    requires Initial(s)
    ensures Inv(Execute(s, run), Standing(s, run))
  {
    hide Next, Enabled, Writes, Inv;
    if run == [] {
      InitialInv(s);
    } else {
      var front := run[..|run| - 1];
      var before, a := Execute(s, front), run[|run| - 1];
      RunKeeps(s, front);
      if Enabled(before, a) {
        StepKeeps(before, a, Standing(s, front));
      } else {
        DisabledWritesNothing(before, a);
      }
    }
  }

  lemma InitialInv(s: State)
    requires Initial(s)
    ensures Inv(s, None)
  {
  }

  lemma DisabledWritesNothing(s: State, a: Action)
    requires !Enabled(s, a)
    ensures !Writes(s, a)
  {
  }

  /** Over every run with drops, reconnects and calls: once greeted and with no call in progress, the last list on its
      way to the relay, or the relay's own list if none is, is the client's list if and only if a call has written
      since the last greeting or the list has not changed since that greeting read it. */
  lemma AgreementExactly(s: State, run: seq<Action>)
    requires Initial(s)
    ensures var e := Execute(s, run);
            e.link.Greeted? && e.call.NoCall? ==>
              && (Effective(e) == e.subscriptions <==> Standing(s, run) in {None, Some(e.subscriptions)})
              && (e.channel == [] ==> Effective(e) == e.relay)
  {
    RunKeeps(s, run);
  }

  // ---------- One call and one greeting ----------

  /** Where a call starts and finishes and where the receiving thread reconnects, reads its greeting and sends it, in a
      run that otherwise only delivers. */
  datatype Order = Order(start: nat, finish: nat, reconnect: nat, read: nat, greet: nat)

  predicate IsOrder(run: seq<Action>, api: Api, o: Order) {
    && o.start < o.finish < |run| && o.reconnect < o.read < o.greet < |run|
    && run[o.reconnect] == Reconnect && run[o.start] == Start(api) && run[o.finish] == Finish && run[o.read] == ReadList && run[o.greet] == Greet
    && forall i :: 0 <= i < |run| && i !in {o.start, o.finish, o.reconnect, o.read, o.greet} ==> run[i].Deliver?
  }

  /** The greeting overtakes the call: `subscribe` and `unsubscribe` edit and send between its reading and its sending;
      `setSubscriptions` sends before the greeting is sent and assigns after it is read. */
  predicate Overtakes(api: Api, o: Order) {
    if api.Set? then o.start < o.greet && o.read < o.finish else o.read < o.start && o.finish < o.greet
  }

  /** The list of the client after `k` steps of such a run. */
  function ListAt(was: seq<Cls>, api: Api, o: Order, k: nat): seq<Cls> {
    if (if api.Set? then o.finish else o.start) < k then Wanted(was, api) else was
  }

  /** The last list written by then, or the one the relay would have ended with anyway. */
  function LastWritten(was: seq<Cls>, effective: seq<Cls>, api: Api, o: Order, k: nat): seq<Cls> {
    var sent := if api.Set? then o.start else o.finish;
    if o.greet < k && (k <= sent || sent < o.greet) then ListAt(was, api, o, o.read)
    else if o.reconnect < sent < k then Wanted(was, api)
    else effective
  }

  ghost predicate AfterSteps(s: State, api: Api, o: Order, k: nat, t: State) {
    && t.subscriptions == ListAt(s.subscriptions, api, o, k)
    && (k <= o.reconnect ==> t.channel == [])
    && t.link == (if k <= o.reconnect then Down else if k <= o.read then Connected
                  else if k <= o.greet then Read(ListAt(s.subscriptions, api, o, o.read)) else Greeted)
    && t.call == (if k <= o.start || o.finish < k then NoCall
                  else if api.Set? then Assigning(Wanted(s.subscriptions, api)) else Sending)
    && Effective(t) == LastWritten(s.subscriptions, Effective(s), api, o, k)
  }

  lemma {:induction false} StepsOf(s: State, api: Api, o: Order, run: seq<Action>, k: nat)
    requires s.link.Down? && s.channel == [] && s.call.NoCall? && Wanted(s.subscriptions, api) != s.subscriptions
    requires IsOrder(run, api, o) && k <= |run|
    ensures AfterSteps(s, api, o, k, Execute(s, run[..k]))
  {
    hide Wanted, Step, IsOrder;
    if k == 0 {
      assert run[..0] == [];
    } else {
      var before := Execute(s, run[..k - 1]);
      StepsOf(s, api, o, run, k - 1);
      assert run[..k][..k - 1] == run[..k - 1] && run[..k][k - 1] == run[k - 1];
      OneStep(s, api, o, run, k - 1, before);
    }
  }

  lemma DeliveryStep(s: State, api: Api, o: Order, run: seq<Action>, k: nat, t: State)
    requires IsOrder(run, api, o) && k < |run| && run[k].Deliver? && AfterSteps(s, api, o, k, t)
    ensures AfterSteps(s, api, o, k + 1, Step(t, run[k]))
  {
    hide Wanted, Effective;
    if t.channel != [] {
      DeliverKeepsEffective(t);
    }
  }

  lemma CallStep(s: State, api: Api, o: Order, run: seq<Action>, k: nat, t: State)
    requires s.call.NoCall? && Wanted(s.subscriptions, api) != s.subscriptions
    requires IsOrder(run, api, o) && (k == o.start || k == o.finish) && AfterSteps(s, api, o, k, t)
    ensures AfterSteps(s, api, o, k + 1, Step(t, run[k]))
  {
    hide Wanted;
  }

  lemma GreetingStep(s: State, api: Api, o: Order, run: seq<Action>, k: nat, t: State)
    requires IsOrder(run, api, o) && (k == o.reconnect || k == o.read || k == o.greet) && AfterSteps(s, api, o, k, t)
    ensures AfterSteps(s, api, o, k + 1, Step(t, run[k]))
  {
    hide Wanted;
  }

  lemma OneStep(s: State, api: Api, o: Order, run: seq<Action>, k: nat, t: State)
    requires s.call.NoCall? && Wanted(s.subscriptions, api) != s.subscriptions
    requires IsOrder(run, api, o) && k < |run| && AfterSteps(s, api, o, k, t)
    ensures AfterSteps(s, api, o, k + 1, Step(t, run[k]))
  {
    hide Wanted, AfterSteps, Step;
    if k in {o.start, o.finish} {
      CallStep(s, api, o, run, k, t);
    } else if k in {o.reconnect, o.read, o.greet} {
      GreetingStep(s, api, o, run, k, t);
    } else {
      DeliveryStep(s, api, o, run, k, t);
    }
  }

  /** A call that changes the list and a reconnect, interleaved in any way and with any deliveries in between, leave
      client and relay in disagreement if and only if the greeting overtakes the call. */
  lemma OneGreetingOneCall(s: State, api: Api, o: Order, run: seq<Action>)
    requires s.link.Down? && s.channel == [] && s.call.NoCall? && Wanted(s.subscriptions, api) != s.subscriptions
    requires IsOrder(run, api, o)
    ensures var e := Execute(s, run);
            && e.link.Greeted? && e.call.NoCall? && e.subscriptions == Wanted(s.subscriptions, api)
            && (Effective(e) == e.subscriptions <==> !Overtakes(api, o))
            && (Overtakes(api, o) ==> Effective(e) == s.subscriptions)
  {
    hide Wanted, Effective, Execute;
    assert run[..|run|] == run;
    StepsOf(s, api, o, run, |run|);
  }

  /** Both kinds of call can be overtaken in the very first reconnect. */
  lemma GreetingOvertakes(c: Cls)
    ensures var s := State([], NoCall, Down, [], []);
            var bySet := Execute(s, [Reconnect, Start(Set([c])), ReadList, Greet, Finish]);
            var bySubscribe := Execute(s, [Reconnect, ReadList, Start(Subscribe(c)), Finish, Greet]);
            && Initial(s)
            && bySet.subscriptions == bySubscribe.subscriptions == [c] && Effective(bySet) == Effective(bySubscribe) == []
  {
    hide Execute;
    var s := State([], NoCall, Down, [], []);
    OneGreetingOneCall(s, Set([c]), Order(1, 4, 0, 2, 3), [Reconnect, Start(Set([c])), ReadList, Greet, Finish]);
    OneGreetingOneCall(s, Subscribe(c), Order(2, 3, 0, 1, 4), [Reconnect, ReadList, Start(Subscribe(c)), Finish, Greet]);
  }

  // ---------- Calls after the greeting ----------

  /** Nothing is left to repair but what a call in progress will still send. */
  predicate Repaired(s: State) {
    s.link.Greeted? && (s.call.Sending? || Effective(s) == Target(s))
  }

  lemma RepairedStays(s: State, a: Action)
    requires Repaired(s) && !a.Drop?
    ensures Repaired(Step(s, a))
  {
    hide Wanted;
    if s.channel != [] {
      DeliverKeepsEffective(s);
    }
  }

  /** From any greeted state, agreeing or not, the next call that changes the list repairs it: whenever no call is in
      progress after that, however calls and deliveries go on while the connection stands, the two sides agree. */
  lemma {:induction false} NextChangeRepairs(s: State, api: Api, more: seq<Action>)
    requires s.link.Greeted? && s.call.NoCall? && Wanted(s.subscriptions, api) != s.subscriptions
    requires forall i :: 0 <= i < |more| ==> !more[i].Drop?
    ensures Repaired(Execute(Next(s, Start(api)), more))
    ensures var e := Execute(Next(s, Start(api)), more);
            e.call.NoCall? ==> Effective(e) == e.subscriptions
  {
    hide Wanted;
    if more == [] {
    } else {
      NextChangeRepairs(s, api, more[..|more| - 1]);
      RepairedStays(Execute(Next(s, Start(api)), more[..|more| - 1]), more[|more| - 1]);
    }
  }

  /** Some call of the run asks for another list than the client then holds. */
  predicate SomeCallChanges(s: State, run: seq<Action>) {
    run != []
    && var before, a := Execute(s, run[..|run| - 1]), run[|run| - 1];
       (a.Start? && before.call.NoCall? && Wanted(before.subscriptions, a.api) != before.subscriptions)
       || SomeCallChanges(s, run[..|run| - 1])
  }

  /** What a run without a drop leads to from a greeted and idle state. */
  ghost predicate Since(s: State, changed: bool, e: State) {
    if changed then Repaired(e)
    else e.link.Greeted? && e.call.NoCall? && e.subscriptions == s.subscriptions && Effective(e) == Effective(s)
  }

  lemma SinceStep(s: State, changed: bool, e: State, a: Action)
    requires Since(s, changed, e) && !a.Drop?
    ensures var changes := a.Start? && e.call.NoCall? && Wanted(e.subscriptions, a.api) != e.subscriptions;
            Since(s, changed || changes, Step(e, a))
  {
    hide Wanted;
    if changed {
      RepairedStays(e, a);
    } else if e.channel != [] {
      DeliverKeepsEffective(e);
    }
  }

  lemma {:induction false} SinceRun(s: State, run: seq<Action>)
    requires s.link.Greeted? && s.call.NoCall?
    requires forall i :: 0 <= i < |run| ==> !run[i].Drop?
    ensures Since(s, SomeCallChanges(s, run), Execute(s, run))
  {
    hide Wanted, Step, Since, Effective;
    if run == [] {
      SinceStart(s);
    } else {
      SinceRun(s, run[..|run| - 1]);
      SinceStep(s, SomeCallChanges(s, run[..|run| - 1]), Execute(s, run[..|run| - 1]), run[|run| - 1]);
    }
  }

  lemma SinceStart(s: State)
    requires s.link.Greeted? && s.call.NoCall?
    ensures Since(s, false, s)
  {
  }

  /** A greeted client left in disagreement stays so while the connection stands, whatever it is asked and whatever is
      delivered, until a call changes its list: at an idle moment the two sides agree if and only if one has. */
  lemma RepairedExactly(s: State, run: seq<Action>)
    requires s.link.Greeted? && s.call.NoCall? && Effective(s) != s.subscriptions
    requires forall i :: 0 <= i < |run| ==> !run[i].Drop?
    ensures var e := Execute(s, run);
            e.call.NoCall? ==> (Effective(e) == e.subscriptions <==> SomeCallChanges(s, run))
  {
    hide Effective, SomeCallChanges, Execute;
    SinceRun(s, run);
  }

  // ---------- Runs whose calls keep clear of reconnects ----------

  /** The step is not one of a call while the receiving thread greets, nor a reconnect during a call. */
  predicate Separate(s: State, a: Action) {
    match a
    case Start(_) => s.link.Down? || s.link.Greeted?
    case Reconnect => s.call.NoCall?
    case _ => true
  }

  predicate AllSeparate(s: State, run: seq<Action>) {
    run == []
    || (AllSeparate(s, run[..|run| - 1]) && Separate(Execute(s, run[..|run| - 1]), run[|run| - 1]))
  }

  ghost predicate Calm(s: State) {
    && (s.link.Connected? || s.link.Read? ==> s.call.NoCall?)
    && (s.link.Read? ==> s.link.greeting == s.subscriptions)
    && (s.link.Greeted? ==> Repaired(s))
  }

  lemma StepStaysCalm(s: State, a: Action)
    requires Calm(s) && Separate(s, a)
    ensures Calm(Step(s, a))
  {
    hide Wanted;
    if s.channel != [] {
      DeliverKeepsEffective(s);
    }
  }

  lemma {:induction false} SeparateRunsStayCalm(s: State, run: seq<Action>)
    requires Calm(s) && AllSeparate(s, run)
    ensures Calm(Execute(s, run))
  {
    hide Step, Separate, Calm;
    if run == [] {
    } else {
      SeparateRunsStayCalm(s, run[..|run| - 1]);
      StepStaysCalm(Execute(s, run[..|run| - 1]), run[|run| - 1]);
    }
  }

  /** If no call overlaps a reconnect, then whenever the client is greeted and idle, the last list on its way is its
      own, and once that is delivered the relay holds it. */
  lemma SeparateRunsAgree(s: State, run: seq<Action>)
    requires Initial(s) && AllSeparate(s, run)
    ensures var e := Execute(s, run);
            e.link.Greeted? && e.call.NoCall? ==>
              Effective(e) == e.subscriptions && (e.channel == [] ==> e.relay == e.subscriptions)
  {
    SeparateRunsStayCalm(s, run);
  }

  // ---------- The relay ----------

  /** The class of the messages that the relay keeps to itself, "__meta__" in ASCII. */
  function MetaClass(): (c: Cls)
    ensures |c| == |"__meta__"| && forall i :: 0 <= i < |c| ==> c[i] == "__meta__"[i] as int
  {
    [95, 95, 109, 101, 116, 97, 95, 95]
  }

  class BusConnection {
    var subscriptions: seq<Cls>
    var messageQueue: seq<Message>

    constructor ()
      ensures subscriptions == [] && messageQueue == []
    {
      subscriptions, messageQueue := [], [];
    }

    method IsSubscribedTo(messageClass: Cls) returns (subscribed: bool)
      ensures subscribed <==> messageClass in subscriptions
    {
      for i := 0 to |subscriptions|
        invariant messageClass !in subscriptions[..i]
      {
        if subscriptions[i] == messageClass {
          return true;
        }
      }
      subscribed := false;
    }

    method QueueMessageIfSubscribed(message: Message)
      modifies this`messageQueue
      ensures message.cls in subscriptions ==> messageQueue == old(messageQueue) + [message]
      ensures message.cls !in subscriptions ==> messageQueue == old(messageQueue)
    {
      var subscribed := IsSubscribedTo(message.cls);
      if subscribed {
        messageQueue := messageQueue + [message];
      }
    }
  }

  function CountSubscribed(lists: seq<seq<Cls>>, c: Cls): nat {
    if lists == [] then 0 else CountSubscribed(lists[..|lists| - 1], c) + if c in lists[|lists| - 1] then 1 else 0
  }

  ghost function Lists(connections: seq<BusConnection>): (lists: seq<seq<Cls>>)
    reads connections
    ensures |lists| == |connections| && forall i :: 0 <= i < |lists| ==> lists[i] == connections[i].subscriptions
  {
    seq(|connections|, i requires 0 <= i < |connections| reads connections => connections[i].subscriptions)
  }

  class MessageBusServer {
    var connections: seq<BusConnection>

    constructor ()
      ensures connections == []
    {
      connections := [];
    }

    /** No connection object is listed twice. */
    ghost predicate Valid()
      reads this
    {
      forall i, j :: 0 <= i < j < |connections| ==> connections[i] != connections[j]
    }

    /** `broadcastToClients`. */
    method BroadcastToClients(message: Message)
      requires Valid()
      modifies connections
      ensures forall c <- connections :: c.subscriptions == old(c.subscriptions)
      ensures forall c <- connections :: message.cls in c.subscriptions ==> c.messageQueue == old(c.messageQueue) + [message]
      ensures forall c <- connections :: message.cls !in c.subscriptions ==> c.messageQueue == old(c.messageQueue)
    {
      for i := 0 to |connections|
        invariant forall j :: 0 <= j < |connections| ==> connections[j].subscriptions == old(connections[j].subscriptions)
        invariant forall j :: 0 <= j < i ==>
          connections[j].messageQueue
          == if message.cls in connections[j].subscriptions then old(connections[j].messageQueue) + [message]
             else old(connections[j].messageQueue)
        invariant forall j :: i <= j < |connections| ==> connections[j].messageQueue == old(connections[j].messageQueue)
      {
        connections[i].QueueMessageIfSubscribed(message);
      }
    }

    /** `calculateEffectiveBroadcastClients`. */
    method CalculateEffectiveBroadcastClients(messageClass: Cls) returns (matching: nat)
      ensures matching == |set i | 0 <= i < |connections| && messageClass in connections[i].subscriptions|
    {
      matching := 0;
      ghost var lists := Lists(connections);
      for i := 0 to |connections|
        invariant matching == CountSubscribed(lists[..i], messageClass)
      {
        assert lists[..i + 1][..i] == lists[..i];
        var subscribed := connections[i].IsSubscribedTo(messageClass);
        if subscribed {
          matching := matching + 1;
        }
      }
      assert lists[..|connections|] == lists;
      CountIsAttained(lists, messageClass);
      assert (set i | 0 <= i < |connections| && messageClass in connections[i].subscriptions)
             == set i | 0 <= i < |lists| && messageClass in lists[i];
    }

    /** A broadcast, and the count made before it: as many queues grow as were counted. */
    method CountedBroadcast(message: Message) returns (matching: nat)
      requires Valid()
      modifies connections
      ensures matching == |set i | 0 <= i < |connections| && connections[i].messageQueue != old(connections[i].messageQueue)|
      ensures forall c <- connections ::
                c.subscriptions == old(c.subscriptions)
                && (c.messageQueue == old(c.messageQueue) || c.messageQueue == old(c.messageQueue) + [message])
    {
      matching := CalculateEffectiveBroadcastClients(message.cls);
      ghost var listed := set i | 0 <= i < |connections| && message.cls in connections[i].subscriptions;
      BroadcastToClients(message);
      assert listed == set i | 0 <= i < |connections| && connections[i].messageQueue != old(connections[i].messageQueue);
    }

    /** `BusConnection::onReceive` for the message decoded from one frame. `parse` stands for the registry and the JSON
        parser: the list of a subscription message, and None for any other meta message, which is dropped. */
    method OnReceive(from: BusConnection, message: Message, parse: Message -> Option<seq<Cls>>)
      requires Valid() && from in connections
      modifies connections
      ensures forall c <- connections ::
                c.subscriptions == if c == from && message.cls == MetaClass() && parse(message).Some?
                                   then parse(message).value else old(c.subscriptions)
      ensures forall c <- connections ::
                c.messageQueue == if message.cls != MetaClass() && message.cls in old(c.subscriptions)
                                  then old(c.messageQueue) + [message] else old(c.messageQueue)
    {
      if message.cls == MetaClass() {
        var list := parse(message);
        if list.Some? {
          from.subscriptions := list.value;
        }
      } else {
        BroadcastToClients(message);
      }
    }
  }

  lemma {:induction false} CountIsAttained(lists: seq<seq<Cls>>, c: Cls)
    ensures CountSubscribed(lists, c) == |set i | 0 <= i < |lists| && c in lists[i]|
  {
    var all := set i | 0 <= i < |lists| && c in lists[i];
    if lists == [] {
      assert all == {};
    } else {
      var front, n := lists[..|lists| - 1], |lists| - 1;
      CountIsAttained(front, c);
      var before := set i | 0 <= i < |front| && c in front[i];
      assert all == if c in lists[n] then before + {n} else before;
    }
  }
}
