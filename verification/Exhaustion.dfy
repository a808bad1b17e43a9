/**
 The end of a key: what happens at its last index, depending on whether the exhaustion marker lies
 beyond that index (src/xmss_core.rs:594-603, 626-634).
*/
module Exhaustion {
  import opened Results
  import opened Bits
  import opened Bytes
  import opened Parameters
  import opened CacheSpec
  import opened SignatureSpec
  import opened CachedSignature
  import opened Signer
  import opened Runs

  // ---- runs that exist ----

  /** The use of the layer-0 key of `idx` for `m`. */
  function FirstCall(p: Params, key: Key, idx: nat, m: seq<Byte>): WotsCall
    requires p.WotsValid()
  {
    CallOf(p, key.seeds, idx, DigestOf(p, key, idx, m), 0)
  }

  lemma FirstCallCounts(p: Params, sk: seq<Byte>, m: seq<Byte>, sk': seq<Byte>, r: Result<seq<Byte>>)
    requires p.Valid() && IsSk(p, sk) && SkIndex(p, sk) <= p.MaxIdx() && (r.Failure? ==> sk' == Bumped(p, sk))
    ensures SignCalls(p, sk, m, sk', r, {FirstCall(p, KeyOf(p, sk), SkIndex(p, sk), m)})
  {
    hide SkIndex, KeyOf, Bumped, DigestOf, CallOf;
  }

  /** A call can succeed whenever the index is in range. */
  lemma CanSign(p: Params, s: State, m: seq<Byte>) returns (e: Event, s': State)
    requires p.Valid() && IsSk(p, s.sk) && Synced(p, s.sk, s.cache) && SkIndex(p, s.sk) <= p.MaxIdx()
    ensures Next(p, s, e, s') && e.Issued? && e.idx == SkIndex(p, s.sk) && s'.sk == AfterSigning(p, s.sk)
    ensures FirstCall(p, KeyOf(p, s.sk), SkIndex(p, s.sk), m) in e.calls
  {
    hide SkIndex, KeyOf, SignatureOf, AfterSigning, Rebuilt, Ready, Synced, FirstCall, SignCalls, Bumped;
    var idx, key := SkIndex(p, s.sk), KeyOf(p, s.sk);
    RebuiltIsReady(p, key.seeds, idx + 1);
    e := Issued(idx, m, SignatureOf(p, key, idx, m), {FirstCall(p, key, idx, m)});
    s' := State(AfterSigning(p, s.sk), if idx == p.MaxIdx() then EMPTY_CACHE else Rebuilt(p, key.seeds, idx + 1));
    IssuedStep(p, s.sk, m, s'.sk, s'.cache);
    FirstCallCounts(p, s.sk, m, s'.sk, Success(e.sig));
  }

  /** If hash calls may be refused, a call can fail after its layer-0 key was used. */
  lemma CanSpoil(p: Params, s: State, m: seq<Byte>) returns (e: Event, s': State)
    requires p.Valid() && IsSk(p, s.sk) && Synced(p, s.sk, s.cache) && SkIndex(p, s.sk) <= p.MaxIdx()
    requires p.digest.faults
    ensures Next(p, s, e, s') && e.Spoiled? && e.idx == SkIndex(p, s.sk) && s'.sk == Bumped(p, s.sk)
    ensures FirstCall(p, KeyOf(p, s.sk), SkIndex(p, s.sk), m) in e.calls
  {
    hide SkIndex, KeyOf, SignatureOf, AfterSigning, Reloaded, Ready, Synced, FirstCall, SignCalls, Bumped;
    var idx, key := SkIndex(p, s.sk), KeyOf(p, s.sk);
    e := Spoiled(idx, m, {FirstCall(p, key, idx, m)});
    s' := State(Bumped(p, s.sk), Reloaded(p, Bumped(p, s.sk)));
    ReloadedIsSynced(p, s'.sk);
    FirstCallCounts(p, s.sk, m, s'.sk, Failure(Error.Hash));
  }

  /** A run of `k` signatures, and what the key holds at its end. */
  ghost predicate Ideal(p: Params, seed: seq<Byte>, states: seq<State>, events: seq<Event>, k: nat)
    requires p.Valid() && |seed| == 3 * p.n
  {
    && FreshRun(p, seed, states, events) && |events| == k && SpentCount(events) == k
    && (forall i :: 0 <= i < k ==> events[i].Issued? && events[i].idx == i)
    && IsSk(p, states[k].sk) && Synced(p, states[k].sk, states[k].cache)
    && (k <= p.MaxIdx() ==> Inv(p, FreshSk(p, seed), k, states[k]))
  }

  lemma IdealFirst(p: Params, seed: seq<Byte>) returns (states: seq<State>, events: seq<Event>)
    requires p.Valid() && |seed| == 3 * p.n
    ensures Ideal(p, seed, states, events, 0)
  {
    hide FreshSk, KeyOf, Ready, Rebuilt, Inv, Synced;
    var seeds := KeyOf(p, FreshSk(p, seed)).seeds;
    RebuiltIsReady(p, seeds, 0);
    states, events := [State(FreshSk(p, seed), Rebuilt(p, seeds, 0))], [];
    FreshIsInv(p, seed, states[0]);
  }

  lemma IdealNext(p: Params, seed: seq<Byte>, states: seq<State>, events: seq<Event>, k: nat, e: Event, s': State)
    returns (states': seq<State>, events': seq<Event>)
    requires p.Valid() && |seed| == 3 * p.n && k <= p.MaxIdx() && Ideal(p, seed, states, events, k)
    requires Next(p, states[k], e, s') && e.Issued? && e.idx == k
    ensures Ideal(p, seed, states', events', k + 1) && states' == states + [s'] && events' == events + [e]
  {
    hide FreshRun, FreshSk, Next, Inv, Synced;
    states', events' := ExtendRun(p, seed, states, events, e, s');
    FreshIsRun(p, seed, states', events');
    assert events'[..k + 1] == events';
    Invariant(p, seed, states', events', k + 1);
  }

  lemma FreshIsRun(p: Params, seed: seq<Byte>, states: seq<State>, events: seq<Event>)
    requires p.Valid() && |seed| == 3 * p.n && FreshRun(p, seed, states, events)
    ensures |states| == |events| + 1
  {
    hide Next, Ready, FreshSk, KeyOf;
  }

  lemma IdealMeans(p: Params, seed: seq<Byte>, states: seq<State>, events: seq<Event>, k: nat)
    requires p.Valid() && |seed| == 3 * p.n && Ideal(p, seed, states, events, k)
    ensures FreshRun(p, seed, states, events) && |events| == SpentCount(events) == k && |states| == k + 1
    ensures forall i :: 0 <= i < k ==> events[i].Issued? && events[i].idx == i
    ensures IsSk(p, states[k].sk) && Synced(p, states[k].sk, states[k].cache)
    ensures k <= p.MaxIdx() ==>
      SkIndex(p, states[k].sk) == k && KeyOf(p, states[k].sk) == KeyOf(p, FreshSk(p, seed))
  {
    hide FreshRun, FreshSk, KeyOf, SkIndex, Synced;
    FreshIsRun(p, seed, states, events);
    if k <= p.MaxIdx() {
      InvIndex(p, FreshSk(p, seed), k, states[k]);
      SameFieldsSameKey(p, states[k].sk, FreshSk(p, seed));
    }
  }

  /** A fresh key can issue its first `k` signatures in a row. */
  lemma {:induction false} IdealRun(p: Params, seed: seq<Byte>, m: seq<Byte>, k: nat)
    returns (states: seq<State>, events: seq<Event>)
    requires p.Valid() && |seed| == 3 * p.n && k <= p.MaxIdx() + 1
    ensures Ideal(p, seed, states, events, k)
  {
    hide FreshSk, KeyOf, SkIndex, Next, FreshRun, Synced, Ideal;
    if k == 0 {
      states, events := IdealFirst(p, seed);
    } else {
      states, events := IdealRun(p, seed, m, k - 1);
      IdealMeans(p, seed, states, events, k - 1);
      var e, s' := CanSign(p, states[k - 1], m);
      states, events := IdealNext(p, seed, states, events, k - 1, e, s');
    }
  }

  lemma InvIndex(p: Params, initial: seq<Byte>, c: nat, s: State)
    requires p.Valid() && IsSk(p, initial) && Inv(p, initial, c, s)
    ensures IsSk(p, s.sk)
    ensures c <= p.MaxIdx() ==> SkIndex(p, s.sk) == c && s.sk[p.indexBytes..] == initial[p.indexBytes..]
  {
    hide KeyOf, SkIndex;
  }

  lemma ExtendRun(p: Params, seed: seq<Byte>, states: seq<State>, events: seq<Event>, e: Event, s': State)
    returns (states': seq<State>, events': seq<Event>)
    requires p.Valid() && |seed| == 3 * p.n && FreshRun(p, seed, states, events)
    requires Next(p, states[|events|], e, s') && e.Spends()
    ensures states' == states + [s'] && events' == events + [e]
    ensures FreshRun(p, seed, states', events') && SpentCount(events') == SpentCount(events) + 1
  {
    hide FreshSk, KeyOf, Ready, Next;
    states', events' := states + [s'], events + [e];
    assert events'[..|events|] == events;
  }

  // ---- when the last index comes again ----

  /**
   Marker room or not, two signatures under one index can only be two under the last index, the second
   made by a key whose fields are erased.
  */
  lemma SecondIsErased(p: Params, states: seq<State>, events: seq<Event>, i: nat, j: nat)
    requires p.Valid() && Run(p, states, events) && i < j < |events|
    requires events[i].Issued? && events[j].Issued? && events[i].idx == events[j].idx
    ensures events[i].idx == p.MaxIdx() && !p.MarkerBeyondRange()
    ensures IsSk(p, states[j].sk) && Erased(p, states[j].sk)
  {
    RepeatIsLast(p, states, events, i, j);
  }

  /** The index a key without room for the marker holds after `c` spent indices: it stays at the last one. */
  function Stuck(p: Params, c: nat): nat {
    if c <= p.MaxIdx() then c else p.MaxIdx()
  }

  lemma {:induction false} IndexSticks(p: Params, seed: seq<Byte>, states: seq<State>, events: seq<Event>, k: nat)
    requires p.Valid() && |seed| == 3 * p.n && FreshRun(p, seed, states, events) && k <= |events|
    requires !p.MarkerBeyondRange()
    ensures IsSk(p, states[k].sk) && SkIndex(p, states[k].sk) == Stuck(p, SpentCount(events[..k]))
  {
    hide Next, Ready, KeyOf, FreshSk, SkIndex, Erased, Pow256;
    MaxIdxFits(p);
    if k == 0 {
      FreshKey(p, seed);
    } else {
      CountStep(events, k - 1);
      IndexSticks(p, seed, states, events, k - 1);
      assert Next(p, states[k - 1], events[k - 1], states[k]);
      IndexGrows(p, states[k - 1], events[k - 1], states[k]);
    }
  }

  lemma {:induction false} FindSpent(events: seq<Event>, k: nat, c: nat) returns (i: nat)
    requires k <= |events| && c < SpentCount(events[..k])
    ensures i < k && events[i].Spends() && SpentCount(events[..i]) == c
  {
    CountStep(events, k - 1);
    if c < SpentCount(events[..k - 1]) {
      i := FindSpent(events, k - 1, c);
    } else {
      i := k - 1;
    }
  }

  lemma StepUnrefused(p: Params, s: State, e: Event, s': State)
    requires p.WotsValid() && Next(p, s, e, s') && IsSk(p, s.sk) && SkIndex(p, s.sk) <= p.MaxIdx()
    ensures !e.Refused? && (!p.digest.faults && !e.Reload? ==> e.Issued?)
  {
    hide SkIndex, KeyOf, Bumped, Synced, SignCalls, Ready, SignatureOf, AfterSigning, Reloaded;
  }

  /**
   Without room for the marker, on every run: no call is ever refused as exhausted; the indices spent are
   0, 1, 2, ..., and then the last one again and again; and when no hash call is refused, every call
   returns a signature, and those after the last index are made by an erased key.
  */
  lemma MarkerCollides(p: Params, seed: seq<Byte>, states: seq<State>, events: seq<Event>, k: nat)
    requires p.Valid() && |seed| == 3 * p.n && FreshRun(p, seed, states, events) && k < |events|
    requires !p.MarkerBeyondRange()
    ensures !events[k].Refused? && (!p.digest.faults && !events[k].Reload? ==> events[k].Issued?)
    ensures events[k].Spends() ==> events[k].idx == Stuck(p, SpentCount(events[..k]))
    ensures !p.digest.faults && SpentCount(events[..k]) > p.MaxIdx() ==>
      IsSk(p, states[k].sk) && Erased(p, states[k].sk)
  {
    hide Next, Ready, KeyOf, FreshSk, SkIndex, Erased, Pow256, SpentCount;
    assert Next(p, states[k], events[k], states[k + 1]);
    IndexSticks(p, seed, states, events, k);
    StepUnrefused(p, states[k], events[k], states[k + 1]);
    IndexGrows(p, states[k], events[k], states[k + 1]);
    if !p.digest.faults && SpentCount(events[..k]) > p.MaxIdx() {
      var i := FindSpent(events, k, p.MaxIdx());
      assert Next(p, states[i], events[i], states[i + 1]);
      NeverSpoiled(p, states[i], events[i], states[i + 1]);
      IndexSticks(p, seed, states, events, i);
      IndexGrows(p, states[i], events[i], states[i + 1]);
      ErasedAfter(p, states, events, k);
    }
  }

  /** Every spent index of the run is different. */
  ghost predicate SpendsOnce(events: seq<Event>) {
    forall i, j :: 0 <= i < j < |events| && events[i].Spends() && events[j].Spends() ==>
        events[i].idx != events[j].idx
  }

  /** Without room for the marker there are runs that spend more indices than there are. */
  lemma LongRun(p: Params, seed: seq<Byte>, m: seq<Byte>) returns (states: seq<State>, events: seq<Event>)
    requires p.Valid() && |seed| == 3 * p.n && !p.MarkerBeyondRange()
    ensures FreshRun(p, seed, states, events) && SpentCount(events) == p.MaxIdx() + 2
  {
    hide FreshSk, KeyOf, SkIndex, FreshRun, Next, Synced, Ideal, SpentCount;
    var n := p.MaxIdx() + 1;
    states, events := IdealRun(p, seed, m, n);
    IdealMeans(p, seed, states, events, n);
    assert events[..n] == events;
    IndexSticks(p, seed, states, events, n);
    var e, s' := CanSign(p, states[n], m);
    states, events := ExtendRun(p, seed, states, events, e, s');
  }

  /**
   Without room for the marker, a refused call at the last index leaves the key where it was: the next
   call uses the same layer-0 key, with the original fields, for its own message.
  */
  lemma SpoiledLastRepeats(p: Params, seed: seq<Byte>, a: seq<Byte>, b: seq<Byte>)
    returns (states: seq<State>, events: seq<Event>)
    requires p.Valid() && |seed| == 3 * p.n && !p.MarkerBeyondRange() && p.digest.faults
    ensures FreshRun(p, seed, states, events) && |events| == p.MaxIdx() + 2
    ensures events[p.MaxIdx()].Spoiled? && events[p.MaxIdx() + 1].Issued?
    ensures events[p.MaxIdx()].idx == events[p.MaxIdx() + 1].idx == p.MaxIdx()
    ensures forall i :: 0 <= i < p.MaxIdx() ==> events[i].Issued? && events[i].idx == i
    ensures var key := KeyOf(p, FreshSk(p, seed));
            && FirstCall(p, key, p.MaxIdx(), a) in events[p.MaxIdx()].calls
            && FirstCall(p, key, p.MaxIdx(), b) in events[p.MaxIdx() + 1].calls
  {
    hide FreshSk, KeyOf, SkIndex, AfterSigning, Bumped, FreshRun, Next, Pow256, Synced, FirstCall, Ideal, SpentCount;
    var last := p.MaxIdx();
    states, events := IdealRun(p, seed, a, last);
    IdealMeans(p, seed, states, events, last);
    AfterSpending(p, states[last].sk);
    BumpedKey(p, states[last].sk);
    MaxIdxFits(p);
    var e, s := CanSpoil(p, states[last], a);
    states, events := ExtendRun(p, seed, states, events, e, s);
    Invariant(p, seed, states, events, last + 1);
    var f, s' := CanSign(p, s, b);
    states, events := ExtendRun(p, seed, states, events, f, s');
  }

  /** An index comes again only after the last index was signed with, which erases the key. */
  ghost predicate RepeatsOnlyErased(p: Params, events: seq<Event>) {
    forall i, j :: 0 <= i < j < |events| && events[i].Spends() && events[j].Spends() && events[i].idx == events[j].idx
        ==> LastIssued(p, events, i, j)
  }

  ghost predicate LastIssued(p: Params, events: seq<Event>, i: nat, j: nat)
    requires i <= j <= |events|
  {
    exists k :: i <= k < j && events[k].Issued? && events[k].idx == p.MaxIdx()
  }

  /**
   A key that still has its secret fields spends every index once, on every run, if and only if the
   marker lies beyond its last index or no hash call is ever refused.
  */
  lemma OriginalKeyIff(p: Params, seed: seq<Byte>)
    requires p.Valid() && |seed| == 3 * p.n
    ensures (forall states: seq<State>, events: seq<Event> | FreshRun(p, seed, states, events) ::
              RepeatsOnlyErased(p, events))
       <==> p.MarkerBeyondRange() || !p.digest.faults
  {
    hide FreshRun;
    if p.MarkerBeyondRange() || !p.digest.faults {
      forall states: seq<State>, events: seq<Event> | FreshRun(p, seed, states, events)
        ensures RepeatsOnlyErased(p, events)
      {
        forall i, j |
          0 <= i < j < |events| && events[i].Spends() && events[j].Spends() && events[i].idx == events[j].idx
          ensures LastIssued(p, events, i, j)
        {
          RepeatIsErased(p, seed, states, events, i, j);
        }
      }
    } else {
      var states, events := SpoiledLastRepeats(p, seed, [], []);
      assert events[p.MaxIdx()].Spends() && events[p.MaxIdx() + 1].Spends();
      assert !LastIssued(p, events, p.MaxIdx(), p.MaxIdx() + 1);
    }
  }

  lemma RepeatIsErased(p: Params, seed: seq<Byte>, states: seq<State>, events: seq<Event>, i: nat, j: nat)
    requires p.Valid() && |seed| == 3 * p.n && FreshRun(p, seed, states, events)
    requires p.MarkerBeyondRange() || !p.digest.faults
    requires i < j < |events| && events[i].Spends() && events[j].Spends() && events[i].idx == events[j].idx
    ensures LastIssued(p, events, i, j)
  {
    if p.MarkerBeyondRange() {
      SpentIncrease(p, seed, states, events, i, j);
    } else {
      NeverSpoiled(p, states[i], events[i], states[i + 1]);
      NeverSpoiled(p, states[j], events[j], states[j + 1]);
      SecondIsErased(p, states, events, i, j);
    }
  }

  lemma NeverSpoiled(p: Params, s: State, e: Event, s': State)
    requires p.WotsValid() && Next(p, s, e, s') && !p.digest.faults
    ensures !e.Spoiled?
  {
    hide SkIndex, KeyOf, Bumped, Synced, SignCalls, Ready, SignatureOf, AfterSigning, Reloaded;
  }

  /** Once all indices are spent, every further signing call is refused. */
  ghost predicate Latches(p: Params, events: seq<Event>) {
    forall k :: 0 <= k < |events| && !events[k].Reload? && SpentCount(events[..k]) >= Pow2(p.FullHeight()) ==>
      events[k].Refused?
  }

  /** Without room for the marker, every run that is long enough repeats its last index. */
  lemma LongRunRepeats(p: Params, seed: seq<Byte>, states: seq<State>, events: seq<Event>)
    requires p.Valid() && |seed| == 3 * p.n && FreshRun(p, seed, states, events)
    requires !p.MarkerBeyondRange() && SpentCount(events) > p.MaxIdx() + 1
    ensures !SpendsOnce(events) && !Latches(p, events)
  {
    hide FreshRun, SpentCount;
    assert events[..|events|] == events;
    var i := FindSpent(events, |events|, p.MaxIdx());
    var j := FindSpent(events, |events|, p.MaxIdx() + 1);
    if j <= i {
      CountMono(events, j, i);
    }
    MarkerCollides(p, seed, states, events, i);
    MarkerCollides(p, seed, states, events, j);
  }

  /**
   One-time use holds on every run of a key if and only if the marker lies beyond its last index; if
   it does not, one-time use fails on every run that spends more indices than there are.
  */
  lemma OneTimeIff(p: Params, seed: seq<Byte>)
    requires p.Valid() && |seed| == 3 * p.n
    ensures (forall states: seq<State>, events: seq<Event> | FreshRun(p, seed, states, events) :: SpendsOnce(events))
       <==> p.MarkerBeyondRange()
    ensures !p.MarkerBeyondRange() ==>
      forall states: seq<State>, events: seq<Event> | FreshRun(p, seed, states, events) ::
        SpentCount(events) > p.MaxIdx() + 1 ==> !SpendsOnce(events)
  {
    hide FreshRun, SpentCount;
    if p.MarkerBeyondRange() {
      forall states: seq<State>, events: seq<Event> | FreshRun(p, seed, states, events)
        ensures SpendsOnce(events)
      {
        forall i, j | 0 <= i < j < |events| && events[i].Spends() && events[j].Spends()
          ensures events[i].idx != events[j].idx
        {
          SpentIncrease(p, seed, states, events, i, j);
        }
      }
    } else {
      var states, events := LongRun(p, seed, []);
      LongRunsRepeat(p, seed);
    }
  }

  /**
   Exhaustion latches on every run of a key if and only if the marker lies beyond its last index; if it
   does not, exhaustion latches on no run that spends more indices than there are.
  */
  lemma LatchIff(p: Params, seed: seq<Byte>)
    requires p.Valid() && |seed| == 3 * p.n
    ensures (forall states: seq<State>, events: seq<Event> | FreshRun(p, seed, states, events) :: Latches(p, events))
       <==> p.MarkerBeyondRange()
    ensures !p.MarkerBeyondRange() ==>
      forall states: seq<State>, events: seq<Event> | FreshRun(p, seed, states, events) ::
        SpentCount(events) > p.MaxIdx() + 1 ==> !Latches(p, events)
  {
    hide FreshRun, SpentCount;
    if p.MarkerBeyondRange() {
      forall states: seq<State>, events: seq<Event> | FreshRun(p, seed, states, events)
        ensures Latches(p, events)
      {
        forall k | 0 <= k < |events| && !events[k].Reload? && SpentCount(events[..k]) >= Pow2(p.FullHeight())
          ensures events[k].Refused?
        {
          Capacity(p, seed, states, events, k);
        }
      }
    } else {
      var states, events := LongRun(p, seed, []);
      LongRunsRepeat(p, seed);
    }
  }

  lemma LongRunsRepeat(p: Params, seed: seq<Byte>)
    requires p.Valid() && |seed| == 3 * p.n && !p.MarkerBeyondRange()
    ensures forall states: seq<State>, events: seq<Event> | FreshRun(p, seed, states, events) ::
        SpentCount(events) > p.MaxIdx() + 1 ==> !SpendsOnce(events) && !Latches(p, events)
  {
    hide FreshRun, SpentCount, SpendsOnce, Latches;
    forall states: seq<State>, events: seq<Event> | FreshRun(p, seed, states, events)
      ensures SpentCount(events) > p.MaxIdx() + 1 ==> !SpendsOnce(events) && !Latches(p, events)
    {
      if SpentCount(events) > p.MaxIdx() + 1 {
        LongRunRepeats(p, seed, states, events);
      }
    }
  }
}
