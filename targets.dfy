/** Timing targets and the callbacks an Animator makes on them. A target is
    known only by its identity; a callback is recorded as the notification
    kind and the target it reached. */
module Notification {

  datatype Option<T> = None | Some(value: T)

  /** A registered TimingTarget, by object identity. */
  datatype Target = Target(id: nat)

  /** The TimingTarget callbacks. */
  datatype Kind = OnBegin | OnRepeat | OnTimingEvent(fraction: real) | OnReverse | OnEnd

  datatype Call = Call(kind: Kind, target: Target)

  /** The targets reached by a sequence of calls, in order. */
  function Recipients(calls: seq<Call>): seq<Target>
  {
    seq(|calls|, i requires 0 <= i < |calls| => calls[i].target)
  }

  /** The recipients of two call sequences one after the other are the
      recipients of the first followed by those of the second. */
  lemma RecipientsAppend(a: seq<Call>, b: seq<Call>)
    ensures Recipients(a + b) == Recipients(a) + Recipients(b)
  {
    assert forall i :: 0 <= i < |a| + |b| ==> Recipients(a + b)[i] == (Recipients(a) + Recipients(b))[i];
  }

  /** One `for (TimingTarget target : f_targets)` loop: the callback `kind`
      made once on every target of the set and on nothing else. */
  ghost predicate IsBroadcast(calls: seq<Call>, kind: Kind, targets: set<Target>)
  {
    && (forall i :: 0 <= i < |calls| ==> calls[i].kind == kind)
    && multiset(Recipients(calls)) == multiset(targets)
  }

  /** A broadcast makes exactly one call per target. */
  lemma BroadcastSize(calls: seq<Call>, kind: Kind, targets: set<Target>)
    requires IsBroadcast(calls, kind, targets)
    ensures |calls| == |targets|
    ensures forall t :: t in targets <==> t in Recipients(calls)
  {
    assert |multiset(Recipients(calls))| == |multiset(targets)|;
    forall t ensures t in targets <==> t in Recipients(calls) {
      assert t in targets <==> t in multiset(targets);
      assert t in Recipients(calls) <==> t in multiset(Recipients(calls));
    }
  }

  /** The loop over the target set, in the set's (unspecified) order. */
  method Broadcast(kind: Kind, targets: set<Target>) returns (calls: seq<Call>)
    ensures IsBroadcast(calls, kind, targets)
  {
    calls := [];
    var rest := targets;
    while rest != {}
      invariant rest <= targets
      invariant forall i :: 0 <= i < |calls| ==> calls[i].kind == kind
      invariant multiset(Recipients(calls)) + multiset(rest) == multiset(targets)
      decreases |rest|
    {
      var t :| t in rest;
      RecipientsAppend(calls, [Call(kind, t)]);
      assert Recipients([Call(kind, t)]) == [t];
      assert multiset(rest) == multiset(rest - {t}) + multiset{t};
      calls := calls + [Call(kind, t)];
      rest := rest - {t};
    }
  }

  /** What one tick delivers, in order: the repeat broadcast when a cycle
      boundary was crossed, then the timing event with the fraction, then the
      end broadcast when the run ends. */
  ghost predicate TickDelivery(calls: seq<Call>, repeat: bool, fraction: real, stop: bool,
                               targets: set<Target>)
  {
    var n := |targets|;
    var r := if repeat then n else 0;
    && |calls| == r + n + (if stop then n else 0)
    && IsBroadcast(calls[..r], OnRepeat, if repeat then targets else {})
    && IsBroadcast(calls[r..r + n], OnTimingEvent(fraction), targets)
    && IsBroadcast(calls[r + n..], OnEnd, if stop then targets else {})
  }

  /** `after` is `before` followed by one broadcast of `kind` to `targets`. */
  ghost predicate Appended(before: seq<Call>, after: seq<Call>, kind: Kind, targets: set<Target>)
  {
    && |before| <= |after| && after[..|before|] == before
    && IsBroadcast(after[|before|..], kind, targets)
  }

  /** `after` is `before` followed by what one tick delivers. */
  ghost predicate TickAppended(before: seq<Call>, after: seq<Call>, repeat: bool, fraction: real,
                               stop: bool, targets: set<Target>)
  {
    && |before| <= |after| && after[..|before|] == before
    && TickDelivery(after[|before|..], repeat, fraction, stop, targets)
  }

  /** The three broadcasts of a tick, one after the other, are its delivery. */
  lemma {:induction false} TickDeliveryOf(before: seq<Call>, repeats: seq<Call>, timing: seq<Call>,
                                          ends: seq<Call>, repeat: bool, fraction: real, stop: bool,
                                          targets: set<Target>)
    requires IsBroadcast(repeats, OnRepeat, if repeat then targets else {})
    requires IsBroadcast(timing, OnTimingEvent(fraction), targets)
    requires IsBroadcast(ends, OnEnd, if stop then targets else {})
    ensures TickAppended(before, before + repeats + timing + ends, repeat, fraction, stop, targets)
  {
    BroadcastSize(repeats, OnRepeat, if repeat then targets else {});
    BroadcastSize(timing, OnTimingEvent(fraction), targets);
    var after := before + repeats + timing + ends;
    var calls := after[|before|..];
    assert calls == repeats + timing + ends;
    var n := |targets|;
    var r := if repeat then n else 0;
    assert |repeats| == r && |timing| == n;
    assert calls[..r] == repeats;
    assert calls[r..r + n] == timing;
    assert calls[r + n..] == ends;
    BroadcastSize(ends, OnEnd, if stop then targets else {});
  }
}
