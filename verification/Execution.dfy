/**
 Driving the library: arbitrary sequences of signing calls and reloads, and a warm session beside a
 reloaded one. What the methods do is tied to the runs of module `Runs`.
*/
module Execution {
  import opened Results
  import opened Bytes
  import opened Parameters
  import opened CacheSpec
  import opened Traversal
  import opened SignatureSpec
  import opened Signer
  import opened Runs

  /** What a user of the key may ask for: a signature, or a reload of the latest key bytes. */
  datatype Command = SignMessage(m: seq<Byte>) | Restart

  /** The event that a command gave rise to. */
  ghost predicate Serves(c: Command, e: Event) {
    match c
    case SignMessage(m) => !e.Reload? && e.m == m
    case Restart => e.Reload?
  }

  /** The events serve the commands in order; only a reload that was refused leaves no event. */
  ghost predicate Follows(faults: bool, script: seq<Command>, events: seq<Event>) {
    if |script| == 0 then events == []
    else
      var rest, last := script[..|script| - 1], script[|script| - 1];
      || (|events| > 0 && Serves(last, events[|events| - 1]) && Follows(faults, rest, events[..|events| - 1]))
      || (faults && last.Restart? && Follows(faults, rest, events))
  }

  /** The answers of the signing calls of a run. */
  function Answers(events: seq<Event>): seq<Result<seq<Byte>>> {
    if |events| == 0 then []
    else
      var e := events[|events| - 1];
      Answers(events[..|events| - 1]) + if e.Reload? then [] else [e.Answer()]
  }

  /** Carries out one command. A reload that is refused leaves the session as it was. */
  method Perform(p: Params, sk: array<Byte>, traversal: TraversalState, c: Command)
    returns (traversal': TraversalState, answer: Option<Result<seq<Byte>>>, ghost step: Option<Event>)
    requires p.Valid() && sk.Length == p.SkBytes()
    requires traversal.Valid() && Synced(p, sk[..], traversal.View())
    modifies sk, traversal, traversal.layers
    ensures traversal'.Valid() && (traversal' == traversal || fresh(traversal'))
    ensures forall k :: 0 <= k < |traversal'.layers| && traversal'.layers[k] != null ==>
        traversal'.layers[k] in old(traversal.layers) || fresh(traversal'.layers[k])
    ensures step.None? ==>
      && c.Restart? && p.digest.faults && answer == None
      && sk[..] == old(sk[..]) && traversal'.View() == old(traversal.View())
    ensures step.Some? ==>
      && Next(p, State(old(sk[..]), old(traversal.View())), step.value, State(sk[..], traversal'.View()))
      && Serves(c, step.value)
      && answer == if step.value.Reload? then None else Some(step.value.Answer())
  {
    hide Params.SigBytes, Params.WotsSigBytes, Params.FullHeight, Params.SkBytes;
    hide SignStep, SignCalls, Synced, Reloaded, Next;
    ghost var before := State(sk[..], traversal.View());
    match c
    case SignMessage(m) =>
      var r, calls := Sign(p, sk, traversal, m);
      ghost var e := EverySignIsAStep(p, before, m, State(sk[..], traversal.View()), r, calls);
      traversal', answer, step := traversal, Some(r), Some(e);
    case Restart =>
      var reloaded := FromCompactKey(p, sk[..]);
      if reloaded.Success? {
        traversal', answer, step := reloaded.value, None, Some(Reload);
        ReloadIsAStep(p, before, State(sk[..], traversal'.View()));
      } else {
        traversal', answer, step := traversal, None, None;
      }
  }

  lemma ReloadIsAStep(p: Params, s: State, s': State)
    requires p.Valid() && IsSk(p, s.sk) && s' == State(s.sk, Reloaded(p, s.sk))
    ensures Next(p, s, Reload, s')
  {
    hide Reloaded;
  }

  lemma RunOn(p: Params, seed: seq<Byte>, states: seq<State>, events: seq<Event>, e: Event, s': State)
    requires p.Valid() && |seed| == 3 * p.n && FreshRun(p, seed, states, events) && Next(p, states[|events|], e, s')
    ensures FreshRun(p, seed, states + [s'], events + [e])
  {
    hide FreshSk, KeyOf, Ready, Next;
  }

  lemma AnswersOn(events: seq<Event>, e: Event)
    ensures Answers(events + [e]) == Answers(events) + if e.Reload? then [] else [e.Answer()]
  {
    assert (events + [e])[..|events|] == events;
  }

  lemma FollowsOn(faults: bool, script: seq<Command>, k: nat, events: seq<Event>, step: Option<Event>)
    requires k < |script| && Follows(faults, script[..k], events)
    requires if step.Some? then Serves(script[k], step.value) else faults && script[k].Restart?
    ensures Follows(faults, script[..k + 1], if step.Some? then events + [step.value] else events)
  {
    hide Serves;
    assert script[..k + 1][..k] == script[..k];
    if step.Some? {
      assert (events + [step.value])[..|events|] == events;
    }
  }

  /** After `k` commands: the trace is a run that ends in `now`, and `answers` are the real answers. */
  ghost predicate Traced(p: Params, seed: seq<Byte>, script: seq<Command>, k: nat, states: seq<State>,
      events: seq<Event>, answers: seq<Result<seq<Byte>>>, now: State)
    requires p.Valid() && |seed| == 3 * p.n && k <= |script|
  {
    && FreshRun(p, seed, states, events) && states[|events|] == now
    && IsSk(p, now.sk) && Synced(p, now.sk, now.cache)
    && Follows(p.digest.faults, script[..k], events)
    && answers == Answers(events)
  }

  lemma TracedFirst(p: Params, seed: seq<Byte>, script: seq<Command>, s: State)
    requires p.Valid() && |seed| == 3 * p.n && s.sk == FreshSk(p, seed)
    requires Ready(p, KeyOf(p, FreshSk(p, seed)).seeds, 0, s.cache)
    ensures Traced(p, seed, script, 0, [s], [], [], s)
  {
    hide FreshSk, KeyOf, Ready, Inv, Synced;
    FreshIsInv(p, seed, s);
  }

  lemma TracedAgain(p: Params, seed: seq<Byte>, script: seq<Command>, k: nat, states: seq<State>, events: seq<Event>,
      answers: seq<Result<seq<Byte>>>, now: State)
    requires p.Valid() && |seed| == 3 * p.n && k < |script| && Traced(p, seed, script, k, states, events, answers, now)
    requires p.digest.faults && script[k].Restart?
    ensures Traced(p, seed, script, k + 1, states, events, answers, now)
  {
    hide FreshRun, Answers, Synced, Follows;
    FollowsOn(p.digest.faults, script, k, events, None);
  }

  lemma TracedOn(p: Params, seed: seq<Byte>, script: seq<Command>, k: nat, states: seq<State>, events: seq<Event>,
      answers: seq<Result<seq<Byte>>>, now: State, e: Event, s': State)
    requires p.Valid() && |seed| == 3 * p.n && k < |script| && Traced(p, seed, script, k, states, events, answers, now)
    requires Next(p, now, e, s') && Serves(script[k], e)
    ensures Traced(p, seed, script, k + 1, states + [s'], events + [e],
                   answers + if e.Reload? then [] else [e.Answer()], s')
  {
    hide Follows, Answers, Next, Serves, Synced, FreshSk, KeyOf, Ready;
    FollowsOn(p.digest.faults, script, k, events, Some(e));
    RunOn(p, seed, states, events, e, s');
    AnswersOn(events, e);
    StepIsSk(p, now, e, s');
    SyncedStep(p, now, e, s');
  }

  lemma TracedMeans(p: Params, seed: seq<Byte>, script: seq<Command>, k: nat, states: seq<State>, events: seq<Event>,
      answers: seq<Result<seq<Byte>>>, now: State)
    requires p.Valid() && |seed| == 3 * p.n && k <= |script| && Traced(p, seed, script, k, states, events, answers, now)
    ensures FreshRun(p, seed, states, events) && Follows(p.digest.faults, script[..k], events)
    ensures answers == Answers(events) && IsSk(p, now.sk) && Synced(p, now.sk, now.cache)
  {
    hide FreshRun, Follows, Answers, Synced;
  }

  /** Carries out command `k` of the script and extends the trace. */
  method PerformNext(p: Params, sk: array<Byte>, traversal: TraversalState, script: seq<Command>, k: nat,
      before: seq<Result<seq<Byte>>>, ghost seed: seq<Byte>, ghost oldStates: seq<State>, ghost oldEvents: seq<Event>)
    returns (traversal': TraversalState, answers: seq<Result<seq<Byte>>>, ghost states: seq<State>,
      ghost events: seq<Event>)
    requires p.Valid() && |seed| == 3 * p.n && k < |script| && sk.Length == p.SkBytes() && traversal.Valid()
    requires Traced(p, seed, script, k, oldStates, oldEvents, before, State(sk[..], traversal.View()))
    modifies sk, traversal, traversal.layers
    ensures traversal'.Valid() && (traversal' == traversal || fresh(traversal'))
    ensures forall k :: 0 <= k < |traversal'.layers| && traversal'.layers[k] != null ==>
        traversal'.layers[k] in old(traversal.layers) || fresh(traversal'.layers[k])
    ensures Traced(p, seed, script, k + 1, states, events, answers, State(sk[..], traversal'.View()))
  {
    hide Params.SigBytes, Params.WotsSigBytes, Params.FullHeight, Params.SkBytes;
    hide Synced, Next, Traced, Serves;
    ghost var was := State(sk[..], traversal.View());
    TracedMeans(p, seed, script, k, oldStates, oldEvents, before, was);
    var answer;
    ghost var step;
    traversal', answer, step := Perform(p, sk, traversal, script[k]);
    ghost var now := State(sk[..], traversal'.View());
    if step.Some? {
      TracedOn(p, seed, script, k, oldStates, oldEvents, before, was, step.value, now);
      states, events := oldStates + [now], oldEvents + [step.value];
    } else {
      TracedAgain(p, seed, script, k, oldStates, oldEvents, before, was);
      states, events := oldStates, oldEvents;
    }
    answers := if answer.Some? then before + [answer.value] else before;
    assert before + [] == before;
  }

  /**
   Generates a key and carries out a script of signing calls and reloads, any hash call of which may be
   refused. The trace is a run of the key, and the answers are those of the run.
  */
  method Execute(p: Params, seed: seq<Byte>, script: seq<Command>)
    returns (pk: Result<seq<Byte>>, answers: seq<Result<seq<Byte>>>, ghost states: seq<State>, ghost events: seq<Event>)
    requires p.Valid() && |seed| == 3 * p.n
    ensures pk.Failure? ==> p.digest.faults && pk.error == Error.Hash
    ensures pk.Success? ==>
      && pk.value == PublicKey(p, KeyOf(p, FreshSk(p, seed)).seeds)
      && FreshRun(p, seed, states, events)
      && Follows(p.digest.faults, script, events)
      && answers == Answers(events)
    ensures pk.Success? ==>
      forall k :: 0 <= k < |events| && events[k].Issued? && Unerased(p, events, k) ==>
        Accepts(p, pk.value, events[k].sig, events[k].m)
  {
    hide Params.SigBytes, Params.WotsSigBytes, Params.FullHeight, Params.SkBytes;
    hide KeyOf, FreshSk, Synced, Ready, PublicKey, Next, Traced, FreshRun, Accepts, Unerased;
    answers, states, events := [], [], [];
    var pkBytes, sk := new Byte[2 * p.n](_ => 0), new Byte[p.SkBytes()](_ => 0);
    var keypair := SeedKeypair(p, pkBytes, sk, seed);
    if keypair.Failure? {
      pk := Failure(keypair.error);
      return;
    }
    var traversal := keypair.value;
    states := [State(sk[..], traversal.View())];
    TracedFirst(p, seed, script, states[0]);
    pk := Success(pkBytes[..]);
    for k := 0 to |script|
      invariant traversal.Valid() && fresh(traversal) && fresh(sk)
      invariant forall k :: 0 <= k < |traversal.layers| && traversal.layers[k] != null ==> fresh(traversal.layers[k])
      invariant Traced(p, seed, script, k, states, events, answers, State(sk[..], traversal.View()))
    {
      traversal, answers, states, events := PerformNext(p, sk, traversal, script, k, answers, seed, states, events);
    }
    TracedMeans(p, seed, script, |script|, states, events, answers, State(sk[..], traversal.View()));
    assert script[..|script|] == script;
    AllAccepted(p, seed, states, events);
  }

  lemma AllAccepted(p: Params, seed: seq<Byte>, states: seq<State>, events: seq<Event>)
    requires p.Valid() && |seed| == 3 * p.n && FreshRun(p, seed, states, events)
    ensures forall k :: 0 <= k < |events| && events[k].Issued? && Unerased(p, events, k) ==>
        Accepts(p, PublicKey(p, KeyOf(p, FreshSk(p, seed)).seeds), events[k].sig, events[k].m)
  {
    hide FreshRun, Accepts, PublicKey, KeyOf, FreshSk, Unerased;
    forall k | 0 <= k < |events| && events[k].Issued? && Unerased(p, events, k)
      ensures Accepts(p, PublicKey(p, KeyOf(p, FreshSk(p, seed)).seeds), events[k].sig, events[k].m)
    {
      IssuedIsAccepted(p, seed, states, events, k);
    }
  }

  /** With a back end that never refuses a call, every command has its event. */
  lemma {:induction false} FaultFreeFollows(script: seq<Command>, events: seq<Event>)
    requires Follows(false, script, events)
    ensures |events| == |script| && forall k :: 0 <= k < |script| ==> Serves(script[k], events[k])
  {
    if |script| > 0 {
      var n := |script| - 1;
      FaultFreeFollows(script[..n], events[..|events| - 1]);
      assert forall k :: 0 <= k < n ==> script[..n][k] == script[k] && events[..n][k] == events[k];
    }
  }

  // ---- a warm session and a reloaded one ----

  /** The caches are the same up to stored signatures. */
  ghost predicate Alike(a: CacheView, b: CacheView) {
    a.nextIdx == b.nextIdx && Forget(a.layers) == Forget(b.layers)
  }

  /** The sessions have no object in common. */
  ghost predicate Apart(sk: array<Byte>, warm: TraversalState, sk2: array<Byte>, cold: TraversalState)
    reads warm, cold
  {
    && sk != sk2 && warm != cold
    && forall i, j :: 0 <= i < |warm.layers| && 0 <= j < |cold.layers| && warm.layers[i] != null ==>
         warm.layers[i] != cold.layers[j]
  }

  /**
   Signs `m` with a warm session, and with one reloaded from a copy of the same key bytes: both answer
   the same and end alike, unless one of them had a hash call refused.
  */
  method SignBoth(p: Params, sk: array<Byte>, warm: TraversalState, sk2: array<Byte>, cold: TraversalState,
      m: seq<Byte>)
    returns (answer: Result<seq<Byte>>, answer2: Result<seq<Byte>>)
    requires p.Valid() && sk.Length == p.SkBytes() && sk[..] == sk2[..]
    requires warm.Valid() && cold.Valid() && Apart(sk, warm, sk2, cold)
    requires Synced(p, sk[..], warm.View()) && cold.View() == Reloaded(p, sk2[..])
    modifies sk, warm, warm.layers, sk2, cold, cold.layers
    ensures SignStep(p, old(sk[..]), m, sk[..], warm.View(), answer)
    ensures SignStep(p, old(sk2[..]), m, sk2[..], cold.View(), answer2)
    ensures (answer.Success? && answer2.Success?) || !p.digest.faults ==>
      answer == answer2 && sk[..] == sk2[..] && Alike(warm.View(), cold.View())
    ensures !p.digest.faults ==> (answer.Success? <==> SkIndex(p, old(sk[..])) <= p.MaxIdx())
  {
    hide Params.SigBytes, Params.WotsSigBytes, Params.FullHeight, Params.SkBytes;
    hide SignStep, SignCalls, Synced, Reloaded, Alike, SkIndex;
    ghost var before := sk[..];
    ReloadedIsSynced(p, before);
    ghost var used, used2;
    answer, used := Sign(p, sk, warm, m);
    ghost var sk', warm' := sk[..], warm.View();
    answer2, used2 := Sign(p, sk2, cold, m);
    assert sk[..] == sk' && warm.View() == warm';
    AnswersAgree(p, before, m, sk[..], warm.View(), answer, sk2[..], cold.View(), answer2);
  }

  /** The answer of a call depends on the key bytes alone, except for refused hash calls. */
  lemma AnswersAgree(p: Params, sk: seq<Byte>, m: seq<Byte>, a: seq<Byte>, c: CacheView, r: Result<seq<Byte>>,
      a': seq<Byte>, c': CacheView, r': Result<seq<Byte>>)
    requires p.Valid() && IsSk(p, sk) && SignStep(p, sk, m, a, c, r) && SignStep(p, sk, m, a', c', r')
    ensures (r.Success? && r'.Success?) || !p.digest.faults ==> r == r' && a == a' && Alike(c, c')
    ensures !p.digest.faults ==> (r.Success? <==> SkIndex(p, sk) <= p.MaxIdx())
  {
    hide SkIndex, KeyOf, SignatureOf, AfterSigning, Bumped, Synced, Ready, Rebuilt, Forget;
    if r.Success? && r'.Success? && SkIndex(p, sk) < p.MaxIdx() {
      ReadyIsRebuilt(p, KeyOf(p, sk).seeds, SkIndex(p, sk) + 1, c);
      ReadyIsRebuilt(p, KeyOf(p, sk).seeds, SkIndex(p, sk) + 1, c');
    }
  }
}
