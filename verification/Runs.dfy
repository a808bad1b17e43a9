/**
 Whole runs of a key: any sequence of signing calls and reloads of the latest key bytes, with a
 refused hash call possible at any point.
*/
module Runs {
  import opened Results
  import opened Bits
  import opened Bytes
  import opened Parameters
  import opened Merkle
  import opened Positions
  import opened CacheSpec
  import opened SignatureSpec
  import opened CachedSignature
  import opened Signer

  /** The key bytes and the cache beside them. */
  datatype State = State(sk: seq<Byte>, cache: CacheView)

  datatype Event =
    // a signature was returned
    | Issued(idx: nat, m: seq<Byte>, sig: seq<Byte>, calls: set<WotsCall>)
    // a hash call was refused after the index was spent, possibly after some one-time keys were used
    | Spoiled(idx: nat, m: seq<Byte>, calls: set<WotsCall>)
    // a hash call was refused before the index was spent
    | Stalled(m: seq<Byte>)
    // the key was exhausted
    | Refused(m: seq<Byte>)
    // the cache was rebuilt from the key bytes
    | Reload
  {
    predicate Spends() {
      Issued? || Spoiled?
    }

    /** The one-time keys the event used. */
    function Calls(): set<WotsCall> {
      if Spends() then calls else {}
    }

    /** What a signing call answered. */
    function Answer(): Result<seq<Byte>>
      requires !Reload?
    {
      match this
      case Issued(_, _, sig, _) => Success(sig)
      case Refused(_) => Failure(KeyExhausted)
      case _ => Failure(Error.Hash)
    }
  }

  /** One step. A signing call is made with a cache that agrees with the key, as `Sign` requires. */
  ghost predicate Next(p: Params, s: State, e: Event, s': State)
    requires p.WotsValid()
  {
    IsSk(p, s.sk) && IsSk(p, s'.sk) && (e.Reload? || Synced(p, s.sk, s.cache)) &&
    match e
    case Issued(idx, m, sig, calls) =>
      idx == SkIndex(p, s.sk) <= p.MaxIdx() && SignStep(p, s.sk, m, s'.sk, s'.cache, Success(sig)) &&
      SignCalls(p, s.sk, m, s'.sk, Success(sig), calls)
    case Spoiled(idx, m, calls) =>
      idx == SkIndex(p, s.sk) <= p.MaxIdx() && s'.sk == Bumped(p, s.sk) &&
      SignStep(p, s.sk, m, s'.sk, s'.cache, Failure(Error.Hash)) &&
      SignCalls(p, s.sk, m, s'.sk, Failure(Error.Hash), calls)
    case Stalled(m) =>
      SkIndex(p, s.sk) <= p.MaxIdx() && s'.sk == s.sk && SignStep(p, s.sk, m, s'.sk, s'.cache, Failure(Error.Hash))
    case Refused(m) =>
      SignStep(p, s.sk, m, s'.sk, s'.cache, Failure(KeyExhausted))
    case Reload =>
      s'.sk == s.sk && s'.cache == Reloaded(p, s.sk)
  }

  /** Every outcome of a signing call, with the one-time keys it used, is one of these steps. */
  lemma EverySignIsAStep(p: Params, s: State, m: seq<Byte>, s': State, r: Result<seq<Byte>>, calls: set<WotsCall>)
    returns (e: Event)
    requires p.WotsValid() && IsSk(p, s.sk) && Synced(p, s.sk, s.cache)
    requires SignStep(p, s.sk, m, s'.sk, s'.cache, r) && SignCalls(p, s.sk, m, s'.sk, r, calls)
    ensures Next(p, s, e, s') && !e.Reload? && e.m == m && e.Answer() == r && e.Calls() == calls
  {
    hide SkIndex, KeyOf, Bumped, AfterSigning, SignatureOf, Ready, Synced, KeyCalls, CallOf;
    if r.Success? {
      e := Issued(SkIndex(p, s.sk), m, r.value, calls);
    } else if SkIndex(p, s.sk) > p.MaxIdx() {
      e := Refused(m);
    } else if s'.sk == s.sk && calls == {} {
      e := Stalled(m);
    } else {
      e := Spoiled(SkIndex(p, s.sk), m, calls);
    }
  }

  ghost predicate Run(p: Params, states: seq<State>, events: seq<Event>)
    requires p.WotsValid()
  {
    |states| == |events| + 1 && forall k :: 0 <= k < |events| ==> Next(p, states[k], events[k], states[k + 1])
  }

  /** A run that starts with a key freshly derived from `seed`. */
  ghost predicate FreshRun(p: Params, seed: seq<Byte>, states: seq<State>, events: seq<Event>)
    requires p.Valid() && |seed| == 3 * p.n
  {
    && Run(p, states, events)
    && states[0].sk == FreshSk(p, seed)
    && Ready(p, KeyOf(p, FreshSk(p, seed)).seeds, 0, states[0].cache)
  }

  /** Indices spent so far. */
  function SpentCount(events: seq<Event>): nat {
    if |events| == 0 then 0
    else SpentCount(events[..|events| - 1]) + if events[|events| - 1].Spends() then 1 else 0
  }

  /** The part of a run that is covered: all of it, or the life of the key up to its last index. */
  ghost predicate Covered(p: Params, events: seq<Event>, k: nat)
    requires k <= |events|
  {
    p.MarkerBeyondRange() || SpentCount(events[..k]) <= p.MaxIdx()
  }

  lemma CountStep(events: seq<Event>, k: nat)
    requires k < |events|
    ensures SpentCount(events[..k + 1]) == SpentCount(events[..k]) + if events[k].Spends() then 1 else 0
  {
    assert events[..k + 1][..k] == events[..k];
  }

  lemma {:induction false} CountMono(events: seq<Event>, i: nat, j: nat)
    requires i <= j <= |events|
    ensures SpentCount(events[..i]) <= SpentCount(events[..j])
  {
    if i < j {
      CountStep(events, j - 1);
      CountMono(events, i, j - 1);
    }
  }

  // ---- the invariant of all runs ----

  /**
   After `c` spent indices the key holds index `c` and its original fields; once all are spent it
   holds an index beyond the last one.
  */
  ghost predicate Inv(p: Params, initial: seq<Byte>, c: nat, s: State)
    requires p.Valid() && IsSk(p, initial)
  {
    && IsSk(p, s.sk) && c <= p.MaxIdx() + 1
    && (c <= p.MaxIdx() ==> SkIndex(p, s.sk) == c && s.sk[p.indexBytes..] == initial[p.indexBytes..])
    && (c == p.MaxIdx() + 1 ==> SkIndex(p, s.sk) > p.MaxIdx())
  }

  lemma SameFieldsSameKey(p: Params, a: seq<Byte>, b: seq<Byte>)
    requires IsSk(p, a) && IsSk(p, b) && a[p.indexBytes..] == b[p.indexBytes..]
    ensures KeyOf(p, a) == KeyOf(p, b)
  {
  }

  /** A reloaded cache agrees with the key. */
  lemma ReloadedIsSynced(p: Params, sk: seq<Byte>)
    requires p.WotsValid() && IsSk(p, sk)
    ensures Synced(p, sk, Reloaded(p, sk))
    ensures SkIndex(p, sk) <= p.MaxIdx() ==> Ready(p, KeyOf(p, sk).seeds, SkIndex(p, sk), Reloaded(p, sk))
  {
    hide KeyOf, SkIndex, Rebuilt;
    RebuiltIsReady(p, KeyOf(p, sk).seeds, SkIndex(p, sk));
  }

  /** What the key holds after an index was spent. */
  lemma AfterSpending(p: Params, sk: seq<Byte>)
    requires p.Valid() && IsSk(p, sk) && SkIndex(p, sk) <= p.MaxIdx()
    ensures SkIndex(p, sk) < p.MaxIdx() ==>
      SkIndex(p, Bumped(p, sk)) == SkIndex(p, sk) + 1 && AfterSigning(p, sk) == Bumped(p, sk)
    ensures SkIndex(p, sk) == p.MaxIdx() ==>
      SkIndex(p, Bumped(p, sk)) == SkIndex(p, AfterSigning(p, sk)) == Pow256(p.indexBytes) - 1
    ensures Bumped(p, sk)[p.indexBytes..] == sk[p.indexBytes..]
  {
    hide Pow256, FromBytes;
    BumpedIndex(p, sk);
    assert Bumped(p, sk)[..p.indexBytes] == NextIndexBytes(p, SkIndex(p, sk));
    if SkIndex(p, sk) == p.MaxIdx() {
      assert AfterSigning(p, sk)[..p.indexBytes] == NextIndexBytes(p, SkIndex(p, sk));
    }
  }

  /** Every step leaves a cache that agrees with the key. */
  lemma SyncedStep(p: Params, s: State, e: Event, s': State)
    requires p.Valid() && Next(p, s, e, s')
    ensures Synced(p, s'.sk, s'.cache)
  {
    hide KeyOf, SkIndex, Bumped, AfterSigning, SignatureOf, Coherent, Pow256, Rebuilt, SignCalls;
    if e.Issued? {
      AfterSpending(p, s.sk);
      BumpedKey(p, s.sk);
    } else if e.Reload? {
      ReloadedIsSynced(p, s.sk);
    }
  }

  lemma InvStep(p: Params, initial: seq<Byte>, c: nat, s: State, e: Event, s': State)
    requires p.Valid() && IsSk(p, initial) && Inv(p, initial, c, s) && Next(p, s, e, s')
    requires p.MarkerBeyondRange() || c + (if e.Spends() then 1 else 0) <= p.MaxIdx()
    ensures e.Spends() ==> e.idx == c && c <= p.MaxIdx()
    ensures e.Refused? ==> c == p.MaxIdx() + 1
    ensures e.Stalled? ==> c <= p.MaxIdx()
    ensures Inv(p, initial, c + if e.Spends() then 1 else 0, s')
  {
    hide KeyOf, SkIndex, Bumped, AfterSigning, SignatureOf, Synced, Ready, Pow256, Reloaded, SignCalls;
    MaxIdxFits(p);
    if e.Spends() {
      AfterSpending(p, s.sk);
    }
  }

  /**
   The cache agrees with the key at every point of every run, and the key holds the index that the
   number of spent indices says, at every covered point.
  */
  lemma {:induction false} Invariant(p: Params, seed: seq<Byte>, states: seq<State>, events: seq<Event>, k: nat)
    requires p.Valid() && |seed| == 3 * p.n && FreshRun(p, seed, states, events) && k <= |events|
    ensures IsSk(p, states[k].sk) && Synced(p, states[k].sk, states[k].cache)
    ensures Covered(p, events, k) ==> Inv(p, FreshSk(p, seed), SpentCount(events[..k]), states[k])
  {
    hide Inv, Next, Ready, KeyOf, FreshSk, Synced;
    if k == 0 {
      FreshIsInv(p, seed, states[0]);
    } else {
      CountStep(events, k - 1);
      Invariant(p, seed, states, events, k - 1);
      assert Next(p, states[k - 1], events[k - 1], states[k]);
      StepIsSk(p, states[k - 1], events[k - 1], states[k]);
      SyncedStep(p, states[k - 1], events[k - 1], states[k]);
      if Covered(p, events, k) {
        InvStep(p, FreshSk(p, seed), SpentCount(events[..k - 1]), states[k - 1], events[k - 1], states[k]);
      }
    }
  }

  lemma StepIsSk(p: Params, s: State, e: Event, s': State)
    requires p.WotsValid() && Next(p, s, e, s')
    ensures IsSk(p, s.sk) && IsSk(p, s'.sk)
  {
    hide KeyOf, SkIndex, SignStep, SignCalls, Synced, Reloaded;
  }

  lemma FreshIsInv(p: Params, seed: seq<Byte>, s: State)
    requires p.Valid() && |seed| == 3 * p.n && s.sk == FreshSk(p, seed)
    requires Ready(p, KeyOf(p, FreshSk(p, seed)).seeds, 0, s.cache)
    ensures Inv(p, FreshSk(p, seed), 0, s) && IsSk(p, s.sk) && Synced(p, s.sk, s.cache)
  {
    hide KeyOf, FreshSk, SkIndex, Coherent;
    FreshKey(p, seed);
  }

  // ---- capacity ----

  /**
   Indices are spent in the order 0, 1, 2, ..., without gaps or repetition; a call is refused only
   after all 2^fullHeight of them are spent, and once they are spent every call is.
  */
  lemma Capacity(p: Params, seed: seq<Byte>, states: seq<State>, events: seq<Event>, k: nat)
    requires p.Valid() && |seed| == 3 * p.n && FreshRun(p, seed, states, events)
    requires p.MarkerBeyondRange() && k < |events|
    ensures SpentCount(events[..k]) <= Pow2(p.FullHeight())
    ensures events[k].Spends() ==> events[k].idx == SpentCount(events[..k]) < Pow2(p.FullHeight())
    ensures events[k].Refused? <==> !events[k].Reload? && SpentCount(events[..k]) == Pow2(p.FullHeight())
    ensures SpentCount(events[..k]) < Pow2(p.FullHeight()) ==>
      states[k].sk[p.indexBytes..] == FreshSk(p, seed)[p.indexBytes..]
  {
    hide Next, Ready, KeyOf, FreshSk, SkIndex, Synced;
    Invariant(p, seed, states, events, k);
    InvStep(p, FreshSk(p, seed), SpentCount(events[..k]), states[k], events[k], states[k + 1]);
  }

  /** A digest back end that never refuses a call lets every call on an unspent key succeed. */
  lemma FaultFreeProgress(p: Params, sk: seq<Byte>, m: seq<Byte>, sk': seq<Byte>, cache': CacheView,
      r: Result<seq<Byte>>)
    requires p.WotsValid() && IsSk(p, sk) && !p.digest.faults && SignStep(p, sk, m, sk', cache', r)
    ensures r.Success? <==> SkIndex(p, sk) <= p.MaxIdx()
    ensures r.Failure? ==> r.error == KeyExhausted
  {
    hide SkIndex, KeyOf, SignatureOf, AfterSigning;
  }

  // ---- the end of a key ----

  /** A key whose secret fields are erased, at its last index or beyond. */
  ghost predicate Erased(p: Params, sk: seq<Byte>)
    requires IsSk(p, sk)
  {
    SkIndex(p, sk) >= p.MaxIdx() && sk[p.indexBytes..] == Fill(4 * p.n, 0)
  }

  lemma ErasedBytes(p: Params, sk: seq<Byte>)
    requires p.Valid() && IsSk(p, sk) && SkIndex(p, sk) <= p.MaxIdx()
    ensures SkIndex(p, sk) == p.MaxIdx() ==> Erased(p, AfterSigning(p, sk))
    ensures Erased(p, sk) ==> Erased(p, Bumped(p, sk))
  {
    hide FromBytes, Fill, Pow256;
    AfterSpending(p, sk);
    MaxIdxFits(p);
    if SkIndex(p, sk) == p.MaxIdx() {
      assert AfterSigning(p, sk)[p.indexBytes..] == Fill(4 * p.n, 0);
    }
  }

  /** How a step moves the stored index; an erased key stays erased, and the last signature erases it. */
  lemma IndexGrows(p: Params, s: State, e: Event, s': State)
    requires p.Valid() && Next(p, s, e, s')
    ensures IsSk(p, s.sk) && IsSk(p, s'.sk) && SkIndex(p, s.sk) <= SkIndex(p, s'.sk)
    ensures e.Spends() ==> e.idx == SkIndex(p, s.sk) <= p.MaxIdx()
    ensures SkIndex(p, s'.sk) ==
      if !e.Spends() then SkIndex(p, s.sk) else if e.idx < p.MaxIdx() then e.idx + 1 else Pow256(p.indexBytes) - 1
    ensures Erased(p, s.sk) ==> Erased(p, s'.sk)
    ensures e.Issued? && e.idx == p.MaxIdx() ==> Erased(p, s'.sk)
  {
    hide SkIndex, KeyOf, Bumped, AfterSigning, SignatureOf, Synced, Ready, Reloaded, SignCalls, Erased, Pow256;
    MaxIdxFits(p);
    if SkIndex(p, s.sk) <= p.MaxIdx() {
      AfterSpending(p, s.sk);
      ErasedBytes(p, s.sk);
    }
  }

  lemma {:induction false} Later(p: Params, states: seq<State>, events: seq<Event>, i: nat, j: nat)
    requires p.Valid() && Run(p, states, events) && i <= j < |events|
    ensures IsSk(p, states[i].sk) && IsSk(p, states[j].sk) && SkIndex(p, states[i].sk) <= SkIndex(p, states[j].sk)
    ensures Erased(p, states[i].sk) ==> Erased(p, states[j].sk)
  {
    hide Next, SkIndex, Erased;
    assert Next(p, states[j], events[j], states[j + 1]);
    IndexGrows(p, states[j], events[j], states[j + 1]);
    if i < j {
      assert Next(p, states[j - 1], events[j - 1], states[j]);
      IndexGrows(p, states[j - 1], events[j - 1], states[j]);
      Later(p, states, events, i, j - 1);
    }
  }

  /** No signature was returned under the last index before event `k`: the key has its secret fields. */
  ghost predicate Unerased(p: Params, events: seq<Event>, k: nat)
    requires k <= |events|
  {
    forall i :: 0 <= i < k ==> !(events[i].Issued? && events[i].idx == p.MaxIdx())
  }

  lemma FieldsStay(p: Params, s: State, e: Event, s': State)
    requires p.Valid() && Next(p, s, e, s') && !(e.Issued? && e.idx == p.MaxIdx())
    ensures IsSk(p, s.sk) && IsSk(p, s'.sk) && s'.sk[p.indexBytes..] == s.sk[p.indexBytes..]
  {
    hide SkIndex, KeyOf, Bumped, AfterSigning, SignatureOf, Synced, Ready, Reloaded, SignCalls, Pow256;
    if e.Spends() {
      AfterSpending(p, s.sk);
    }
  }

  /** Until the last index is signed with, a key keeps the fields it was generated with. */
  lemma {:induction false} FieldsKept(p: Params, seed: seq<Byte>, states: seq<State>, events: seq<Event>, k: nat)
    requires p.Valid() && |seed| == 3 * p.n && FreshRun(p, seed, states, events)
    requires k <= |events| && Unerased(p, events, k)
    ensures IsSk(p, states[k].sk) && states[k].sk[p.indexBytes..] == FreshSk(p, seed)[p.indexBytes..]
    ensures KeyOf(p, states[k].sk) == KeyOf(p, FreshSk(p, seed))
  {
    hide Next, Ready, KeyOf, FreshSk;
    if k > 0 {
      FieldsKept(p, seed, states, events, k - 1);
      assert Next(p, states[k - 1], events[k - 1], states[k]);
      FieldsStay(p, states[k - 1], events[k - 1], states[k]);
    }
    SameFieldsSameKey(p, states[k].sk, FreshSk(p, seed));
  }

  /** Once the last index is signed with, a key is erased for good. */
  lemma ErasedAfter(p: Params, states: seq<State>, events: seq<Event>, k: nat)
    requires p.Valid() && Run(p, states, events) && k < |events| && !Unerased(p, events, k)
    ensures IsSk(p, states[k].sk) && Erased(p, states[k].sk)
  {
    hide Next, SkIndex, Erased;
    var i :| 0 <= i < k && events[i].Issued? && events[i].idx == p.MaxIdx();
    assert Next(p, states[i], events[i], states[i + 1]);
    IndexGrows(p, states[i], events[i], states[i + 1]);
    Later(p, states, events, i + 1, k);
  }

  /** An index that comes again is the last one of a key without room for the marker. */
  lemma RepeatIsLast(p: Params, states: seq<State>, events: seq<Event>, i: nat, j: nat)
    requires p.Valid() && Run(p, states, events) && i < j < |events|
    requires events[i].Spends() && events[j].Spends() && events[i].idx == events[j].idx
    ensures events[i].idx == p.MaxIdx() && !p.MarkerBeyondRange()
    ensures events[i].Issued? ==> IsSk(p, states[j].sk) && Erased(p, states[j].sk)
  {
    hide Next, SkIndex, Erased, Pow256;
    assert Next(p, states[i], events[i], states[i + 1]);
    assert Next(p, states[j], events[j], states[j + 1]);
    IndexGrows(p, states[i], events[i], states[i + 1]);
    IndexGrows(p, states[j], events[j], states[j + 1]);
    Later(p, states, events, i + 1, j);
    MaxIdxFits(p);
  }

  // ---- end-to-end correctness ----

  /**
   In every run, every signature returned while the key has its fields is the specified one, and is
   accepted under the generated public key.
  */
  lemma IssuedIsAccepted(p: Params, seed: seq<Byte>, states: seq<State>, events: seq<Event>, k: nat)
    requires p.Valid() && |seed| == 3 * p.n && FreshRun(p, seed, states, events)
    requires k < |events| && events[k].Issued? && Unerased(p, events, k)
    ensures events[k].idx <= p.MaxIdx() && (Covered(p, events, k) ==> events[k].idx == SpentCount(events[..k]))
    ensures events[k].sig == SignatureOf(p, KeyOf(p, FreshSk(p, seed)), events[k].idx, events[k].m)
    ensures Accepts(p, PublicKey(p, KeyOf(p, FreshSk(p, seed)).seeds), events[k].sig, events[k].m)
  {
    hide FreshSk, KeyOf, SkIndex, AfterSigning, SignatureOf, Accepts, Ready, Synced, PublicKey, RootOf, SignCalls;
    Invariant(p, seed, states, events, k);
    FieldsKept(p, seed, states, events, k);
    var e := events[k];
    assert Next(p, states[k], e, states[k + 1]);
    FreshKey(p, seed);
    SignedIsAccepted(p, KeyOf(p, FreshSk(p, seed)), e.idx, e.m);
  }

  /** Any later signature is made under the last index, without room for the marker, by a key of zeros. */
  lemma IssuedWhenErased(p: Params, seed: seq<Byte>, states: seq<State>, events: seq<Event>, k: nat)
    requires p.Valid() && |seed| == 3 * p.n && FreshRun(p, seed, states, events)
    requires k < |events| && events[k].Issued? && !Unerased(p, events, k)
    ensures events[k].idx == p.MaxIdx() && !p.MarkerBeyondRange()
    ensures events[k].sig == SignatureOf(p, KeyFields(p.n, Fill(4 * p.n, 0)), p.MaxIdx(), events[k].m)
  {
    hide FreshSk, SkIndex, AfterSigning, SignatureOf, Ready, Synced, SignCalls, KeyFields, Fill, Pow256;
    ErasedAfter(p, states, events, k);
    var e := events[k];
    assert Next(p, states[k], e, states[k + 1]);
    var i :| 0 <= i < k && events[i].Issued? && events[i].idx == p.MaxIdx();
    RepeatIsLast(p, states, events, i, k);
  }

  /** While the marker has room or indices are left, an index is only spent by a key that has its fields. */
  lemma CoveredIsUnerased(p: Params, seed: seq<Byte>, states: seq<State>, events: seq<Event>, k: nat)
    requires p.Valid() && |seed| == 3 * p.n && FreshRun(p, seed, states, events)
    requires k < |events| && events[k].Spends() && Covered(p, events, k)
    ensures Unerased(p, events, k)
  {
    hide FreshRun;
    forall i | 0 <= i < k && events[i].Issued?
      ensures events[i].idx != p.MaxIdx()
    {
      SpentIncrease(p, seed, states, events, i, k);
    }
  }

  // ---- one-time keys ----

  /** The index a covered event spends is the number of indices spent before it. */
  lemma SpentIdx(p: Params, seed: seq<Byte>, states: seq<State>, events: seq<Event>, k: nat)
    requires p.Valid() && |seed| == 3 * p.n && FreshRun(p, seed, states, events)
    requires k < |events| && events[k].Spends() && Covered(p, events, k)
    ensures events[k].idx == SpentCount(events[..k]) <= p.MaxIdx()
  {
    hide FreshSk, SkIndex, KeyOf, Ready, Synced, SignStep;
    Invariant(p, seed, states, events, k);
    assert Next(p, states[k], events[k], states[k + 1]);
  }

  /** No index is spent twice: across reloads and refused calls, spent indices strictly increase. */
  lemma SpentIncrease(p: Params, seed: seq<Byte>, states: seq<State>, events: seq<Event>, i: nat, j: nat)
    requires p.Valid() && |seed| == 3 * p.n && FreshRun(p, seed, states, events)
    requires i < j < |events| && events[i].Spends() && events[j].Spends() && Covered(p, events, j)
    ensures events[i].idx < events[j].idx <= p.MaxIdx()
  {
    hide FreshRun;
    CountMono(events, i, j);
    SpentIdx(p, seed, states, events, i);
    SpentIdx(p, seed, states, events, j);
    CountStep(events, i);
    CountMono(events, i + 1, j);
  }

  /** The address of a one-time key determines its layer, tree and leaf. */
  lemma OtsWordsInjective(p: Params, a: nat, b: nat, i: nat, j: nat)
    requires p.Valid() && a <= p.MaxIdx() && b <= p.MaxIdx() && i < p.d && j < p.d
    requires OtsWords(p, a, i) == OtsWords(p, b, j)
    ensures i == j && TreeIdx(p, a, i) == TreeIdx(p, b, i) && LeafIdx(p, a, i) == LeafIdx(p, b, i)
  {
    hide TreeIdx, LeafIdx, Pow2;
    var u, v := OtsWords(p, a, i), OtsWords(p, b, j);
    LayersFit(p);
    MaxIdxFits(p);
    PositionBounds(p, a, i);
    PositionBounds(p, b, j);
    assert u[0] == v[0] && u[1] == v[1] && u[2] == v[2] && u[4] == v[4];
    Low32Id(i);
    Low32Id(j);
    Low32Id(LeafIdx(p, a, i));
    Low32Id(LeafIdx(p, b, j));
    HalvesInjective(TreeIdx(p, a, i), TreeIdx(p, b, j));
  }

  lemma HalvesInjective(x: nat, y: nat)
    requires x < Pow2(64) && y < Pow2(64)
    requires Low32(x / 0x1_0000_0000) == Low32(y / 0x1_0000_0000) && Low32(x) == Low32(y)
    ensures x == y
  {
    hide Pow2;
    Pow64();
    Low32Id(x / 0x1_0000_0000);
    Low32Id(y / 0x1_0000_0000);
  }

  /** A one-time key position fixes what it signs above layer 0, and the index itself at layer 0. */
  lemma PositionFixesRoot(p: Params, seeds: Seeds, a: nat, b: nat, i: nat)
    requires p.WotsValid()
    requires TreeIdx(p, a, i) == TreeIdx(p, b, i) && LeafIdx(p, a, i) == LeafIdx(p, b, i)
    ensures i == 0 ==> a == b
    ensures i > 0 ==> RootBelow(p, seeds, a, i) == RootBelow(p, seeds, b, i)
  {
    hide TreeIdx, LeafIdx, RootOf, Pow2;
    if i == 0 {
      Position(p, a, 0);
      Position(p, b, 0);
      assert p.treeHeight * 0 == 0;
    } else {
      TreeBelow(p, a, i);
      TreeBelow(p, b, i);
    }
  }

  /** The one-time keys an event used are those of the index it spent, under the generated key. */
  lemma EventCalls(p: Params, seed: seq<Byte>, states: seq<State>, events: seq<Event>, k: nat)
    requires p.Valid() && |seed| == 3 * p.n && FreshRun(p, seed, states, events)
    requires k < |events| && events[k].Spends() && Unerased(p, events, k)
    ensures events[k].idx <= p.MaxIdx()
    ensures KeyCalls(p, KeyOf(p, FreshSk(p, seed)), events[k].idx, events[k].m, events[k].calls)
  {
    hide FreshSk, SkIndex, KeyOf, Bumped, Ready, Synced, SignStep, IsCall, CallOf, DigestOf;
    FieldsKept(p, seed, states, events, k);
    assert Next(p, states[k], events[k], states[k + 1]);
  }

  /**
   Two uses at one position are of one key, and the same use, except at layer 0 when two calls with
   different messages spend one index.
  */
  lemma SamePosition(p: Params, key: Key, a: nat, m: seq<Byte>, x: WotsCall, b: nat, m': seq<Byte>, y: WotsCall)
    requires p.Valid() && a <= p.MaxIdx() && b <= p.MaxIdx() && x.pos == y.pos
    requires IsCall(p, key.seeds, a, DigestOf(p, key, a, m), x) && IsCall(p, key.seeds, b, DigestOf(p, key, b, m'), y)
    ensures |x.pos| == 5 && x.seeds == y.seeds == key.seeds
    ensures x.pos[0] == 0 ==> a == b
    ensures x.pos[0] > 0 || m == m' ==> x == y
  {
    hide OtsWords, RootBelow, DigestOf, TreeIdx, LeafIdx;
    var i: nat :| i < p.d && x == CallOf(p, key.seeds, a, DigestOf(p, key, a, m), i);
    var j: nat :| j < p.d && y == CallOf(p, key.seeds, b, DigestOf(p, key, b, m'), j);
    OtsWordsInjective(p, a, b, i, j);
    PositionFixesRoot(p, key.seeds, a, b, i);
    LayerWord(p, a, i);
  }

  lemma LayerWord(p: Params, idx: nat, i: nat)
    requires p.Valid() && i < p.d
    ensures OtsWords(p, idx, i)[0] == i
  {
    LayersFit(p);
  }

  /**
   Over a whole run, reloads and refused calls included, and as long as the key has its fields: two uses
   of one one-time key are the same use, and a key of layer 0 is used by one call only. The one exception
   is the layer-0 key of the last index of a key without room for the marker, after a refused call.
  */
  lemma OneTimeKeys(p: Params, seed: seq<Byte>, states: seq<State>, events: seq<Event>, a: nat, x: WotsCall, b: nat,
      y: WotsCall)
    requires p.Valid() && |seed| == 3 * p.n && FreshRun(p, seed, states, events)
    requires a <= b < |events| && Unerased(p, events, b)
    requires x in events[a].Calls() && y in events[b].Calls() && x.pos == y.pos
    ensures |x.pos| == 5 && x.seeds == y.seeds == KeyOf(p, FreshSk(p, seed)).seeds
    ensures
      || (x == y && (x.pos[0] == 0 ==> a == b))
      || (a < b && x.pos[0] == 0 && events[a].Spoiled? && events[a].idx == events[b].idx == p.MaxIdx()
          && !p.MarkerBeyondRange())
  {
    hide Run, Ready, IsCall, FreshSk, KeyOf, DigestOf;
    EventCalls(p, seed, states, events, a);
    EventCalls(p, seed, states, events, b);
    var key := KeyOf(p, FreshSk(p, seed));
    SamePosition(p, key, events[a].idx, events[a].m, x, events[b].idx, events[b].m, y);
    if a < b && events[a].idx == events[b].idx {
      RepeatIsLast(p, states, events, a, b);
    }
  }

  // ---- the cache is a reload ----

  /** A cache marked for the key's index is coherent with the key, at every point of every run. */
  lemma CacheCoherent(p: Params, seed: seq<Byte>, states: seq<State>, events: seq<Event>, k: nat)
    requires p.Valid() && |seed| == 3 * p.n && FreshRun(p, seed, states, events) && k <= |events|
    ensures IsSk(p, states[k].sk)
    ensures states[k].cache.nextIdx == Some(SkIndex(p, states[k].sk)) ==>
      Coherent(p, KeyOf(p, states[k].sk).seeds, SkIndex(p, states[k].sk), states[k].cache.layers)
  {
    hide FreshRun, FreshSk, KeyOf, SkIndex, Coherent, Inv;
    Invariant(p, seed, states, events, k);
  }

  /** Up to stored signatures, the cache is what a reload of the key bytes would build. */
  ghost predicate IsReload(p: Params, s: State)
    requires p.WotsValid() && IsSk(p, s.sk)
  {
    CacheView(s.cache.nextIdx, Forget(s.cache.layers)) == Reloaded(p, s.sk)
  }

  lemma ReadyIsReload(p: Params, s: State)
    requires p.WotsValid() && IsSk(p, s.sk) && SkIndex(p, s.sk) <= p.MaxIdx()
    requires Ready(p, KeyOf(p, s.sk).seeds, SkIndex(p, s.sk), s.cache)
    ensures IsReload(p, s)
  {
    hide KeyOf, SkIndex, Ready, Rebuilt, Forget;
    ReadyIsRebuilt(p, KeyOf(p, s.sk).seeds, SkIndex(p, s.sk), s.cache);
  }

  /** An empty cache is what a reload builds exactly when the key is beyond its last index. */
  lemma EmptyIsReload(p: Params, s: State)
    requires p.WotsValid() && IsSk(p, s.sk) && s.cache == EMPTY_CACHE
    ensures IsReload(p, s) <==> SkIndex(p, s.sk) > p.MaxIdx()
  {
    hide KeyOf, SkIndex, BuiltLayer;
    assert Forget([]) == [];
  }

  lemma ReloadIsReload(p: Params, s: State)
    requires p.Valid() && IsSk(p, s.sk) && s.cache == Reloaded(p, s.sk)
    ensures IsReload(p, s)
  {
    hide KeyOf, SkIndex, Ready, Rebuilt, IsReload;
    if SkIndex(p, s.sk) <= p.MaxIdx() {
      ReloadedIsSynced(p, s.sk);
      ReadyIsReload(p, s);
    } else {
      EmptyIsReload(p, s);
    }
  }

  lemma StepIsReload(p: Params, s: State, e: Event, s': State)
    requires p.Valid() && Next(p, s, e, s') && (e.Issued? || e.Reload?)
    ensures IsSk(p, s'.sk)
    ensures IsReload(p, s') <==> p.MarkerBeyondRange() || e.Reload? || e.idx < p.MaxIdx()
  {
    hide KeyOf, SkIndex, Ready, Reloaded, Bumped, SignatureOf, AfterSigning, SignCalls, Synced, IsReload, Pow256;
    if e.Reload? {
      ReloadIsReload(p, s');
    } else {
      AfterSpending(p, s.sk);
      BumpedKey(p, s.sk);
      MaxIdxFits(p);
      if e.idx < p.MaxIdx() {
        ReadyIsReload(p, s');
      } else {
        EmptyIsReload(p, s');
      }
    }
  }

  /**
   After generation, a signature or a reload, the warm cache is what a reload would build, up to stored
   signatures, except exactly after the last signature of a key whose marker has no room: the cache is
   then empty, but a reload takes the marker for an index.
  */
  lemma WarmIsReloaded(p: Params, seed: seq<Byte>, states: seq<State>, events: seq<Event>, k: nat)
    requires p.Valid() && |seed| == 3 * p.n && FreshRun(p, seed, states, events)
    requires k <= |events| && (k == 0 || events[k - 1].Issued? || events[k - 1].Reload?)
    ensures IsSk(p, states[k].sk)
    ensures IsReload(p, states[k]) <==>
      p.MarkerBeyondRange() || k == 0 || events[k - 1].Reload? || events[k - 1].idx < p.MaxIdx()
  {
    hide FreshSk, KeyOf, SkIndex, Next, Ready, IsReload;
    if k == 0 {
      FreshKey(p, seed);
      ReadyIsReload(p, states[0]);
    } else {
      assert Next(p, states[k - 1], events[k - 1], states[k]);
      StepIsReload(p, states[k - 1], events[k - 1], states[k]);
    }
  }
}
