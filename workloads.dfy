/**
 * Workload records (`get_workloads`, main.py:56-98): the tuple
 * `(namespace, name, match_labels, kind, replicas)` each listed object is
 * normalised to, after the cluster has been queried. The four listing calls
 * themselves are network I/O and appear here only as their results.
 */
module Workloads {
  import opened Wrappers
  import opened Selector

  datatype Kind = Deployment | StatefulSet | DaemonSet | Rollout

  /**
   * A normalised workload. `matchLabels` is `None` when the object's selector
   * has no `match_labels`; `replicas` is never set for the three core kinds.
   */
  datatype Workload = Workload(
    namespace: string,
    name: string,
    matchLabels: Option<seq<Label>>,
    kind: Kind,
    replicas: Option<int>)

  /** A listed Deployment, StatefulSet or DaemonSet. */
  datatype RawWorkload = RawWorkload(namespace: string, name: string, matchLabels: Option<seq<Label>>)

  /** A field of a custom resource's JSON: a missing key, an explicit `null`, or a value. */
  datatype Field<+T> = Absent | Null | Present(value: T)

  /**
   * A listed Argo Rollout. `matchLabels` is `Absent` when indexing
   * `spec.selector.matchLabels` fails (a key on the way is missing, or
   * `spec.selector` is `null`), `Null` when it holds `null`. `replicas` is the
   * `spec.replicas` field.
   */
  datatype RawRollout = RawRollout(
    namespace: string,
    name: string,
    matchLabels: Field<seq<Label>>,
    replicas: Field<int>)

  /** The records of one core kind (main.py:65-68, 72-75, 79-82): no replica count. */
  function CoreRecords(items: seq<RawWorkload>, kind: Kind): (r: seq<Workload>)
    requires kind != Rollout
    ensures |r| == |items|
    ensures forall i :: 0 <= i < |items| ==>
              r[i] == Workload(items[i].namespace, items[i].name, items[i].matchLabels, kind, None)
    ensures forall w :: w in r ==> w.kind == kind && w.replicas == None
  {
    if items == [] then []
    else
      var d := items[0];
      [Workload(d.namespace, d.name, d.matchLabels, kind, None)] + CoreRecords(items[1..], kind)
  }

  /** Every rollout of the batch can be indexed down to its `matchLabels`. */
  predicate AllListed(rs: seq<RawRollout>)
  {
    forall i :: 0 <= i < |rs| ==> !rs[i].matchLabels.Absent?
  }

  /**
   * One rollout record (main.py:92): an explicit `null` selector becomes `None`;
   * `spec.get('replicas', 1)` is 1 for a missing key and `None` for `null`.
   */
  function RolloutRecord(r: RawRollout): (w: Workload)
    requires !r.matchLabels.Absent?
    ensures w.namespace == r.namespace && w.name == r.name && w.kind == Rollout
    ensures w.matchLabels.Some? <==> r.matchLabels.Present?
    ensures r.matchLabels.Present? ==> w.matchLabels.value == r.matchLabels.value
    ensures r.replicas.Absent? ==> w.replicas == Some(1)
    ensures r.replicas.Null? ==> w.replicas == None
    ensures r.replicas.Present? ==> w.replicas == Some(r.replicas.value)
  {
    var labels := if r.matchLabels.Present? then Some(r.matchLabels.value) else None;
    var replicas := match r.replicas
      case Absent => Some(1)
      case Null => None
      case Present(n) => Some(n);
    Workload(r.namespace, r.name, labels, Rollout, replicas)
  }

  function RolloutRecords(rs: seq<RawRollout>): (r: seq<Workload>)
    requires AllListed(rs)
    ensures |r| == |rs|
    ensures forall i :: 0 <= i < |rs| ==> r[i] == RolloutRecord(rs[i])
  {
    if rs == [] then [] else [RolloutRecord(rs[0])] + RolloutRecords(rs[1..])
  }

  /**
   * The rollout records (main.py:84-96). `fetched` is `None` when listing the
   * custom resource failed. The list is built by one comprehension before it is
   * added, so a single rollout whose `matchLabels` cannot be reached loses the
   * whole batch, exactly as a failed listing does; neither aborts the run.
   */
  function Rollouts(fetched: Option<seq<RawRollout>>): (r: seq<Workload>)
    ensures fetched.None? ==> r == []
    ensures fetched.Some? && !AllListed(fetched.value) ==> r == []
    ensures fetched.Some? && AllListed(fetched.value) ==>
              |r| == |fetched.value|
              && forall i :: 0 <= i < |r| ==> r[i] == RolloutRecord(fetched.value[i])
    ensures forall w :: w in r ==> w.kind == Rollout
  {
    match fetched
    case None => []
    case Some(rs) => if AllListed(rs) then RolloutRecords(rs) else []
  }

  /**
   * `get_workloads`: deployments, then stateful sets, then daemon sets, then
   * rollouts, each in listing order (`CollectLayout`).
   */
  function Collect(
    deployments: seq<RawWorkload>,
    statefulSets: seq<RawWorkload>,
    daemonSets: seq<RawWorkload>,
    rollouts: Option<seq<RawRollout>>): (r: seq<Workload>)
    ensures |r| == |deployments| + |statefulSets| + |daemonSets| + |Rollouts(rollouts)|
  {
    CoreRecords(deployments, Deployment) + CoreRecords(statefulSets, StatefulSet)
    + CoreRecords(daemonSets, DaemonSet) + Rollouts(rollouts)
  }

  /**
   * The collected records, element for element: the deployments, the stateful
   * sets and the daemon sets as listed, then the rollout records; no core
   * record has a replica count.
   */
  lemma CollectLayout(
    deployments: seq<RawWorkload>,
    statefulSets: seq<RawWorkload>,
    daemonSets: seq<RawWorkload>,
    rollouts: Option<seq<RawRollout>>)
    ensures var r := Collect(deployments, statefulSets, daemonSets, rollouts);
            && (forall i :: 0 <= i < |deployments| ==>
                  r[i] == Workload(deployments[i].namespace, deployments[i].name, deployments[i].matchLabels, Deployment, None))
            && (forall i :: 0 <= i < |statefulSets| ==>
                  r[|deployments| + i] ==
                    Workload(statefulSets[i].namespace, statefulSets[i].name, statefulSets[i].matchLabels, StatefulSet, None))
            && (forall i :: 0 <= i < |daemonSets| ==>
                  r[|deployments| + |statefulSets| + i] ==
                    Workload(daemonSets[i].namespace, daemonSets[i].name, daemonSets[i].matchLabels, DaemonSet, None))
            && r[|deployments| + |statefulSets| + |daemonSets|..] == Rollouts(rollouts)
            && (forall w :: w in r && w.kind != Rollout ==> w.replicas == None)
  {
    var a, b := CoreRecords(deployments, Deployment), CoreRecords(statefulSets, StatefulSet);
    var c, d := CoreRecords(daemonSets, DaemonSet), Rollouts(rollouts);
    var r := a + b + c + d;
    assert Collect(deployments, statefulSets, daemonSets, rollouts) == r;
    forall i | 0 <= i < |deployments|
      ensures r[i] == Workload(deployments[i].namespace, deployments[i].name, deployments[i].matchLabels, Deployment, None)
    {
      InFirstRun(a, b, c, d, i);
    }
    forall i | 0 <= i < |statefulSets|
      ensures r[|deployments| + i] ==
                Workload(statefulSets[i].namespace, statefulSets[i].name, statefulSets[i].matchLabels, StatefulSet, None)
    {
      InSecondRun(a, b, c, d, i);
    }
    forall i | 0 <= i < |daemonSets|
      ensures r[|deployments| + |statefulSets| + i] ==
                Workload(daemonSets[i].namespace, daemonSets[i].name, daemonSets[i].matchLabels, DaemonSet, None)
    {
      InThirdRun(a, b, c, d, i);
    }
    LastRun(a, b, c, d);
    forall w | w in r && w.kind != Rollout
      ensures w.replicas == None
    {
      InSomeRun(a, b, c, d, w);
    }
  }

  /** Where a listed rollout lands among the collected records. */
  lemma CollectedRollout(
    deployments: seq<RawWorkload>,
    statefulSets: seq<RawWorkload>,
    daemonSets: seq<RawWorkload>,
    rollouts: seq<RawRollout>,
    j: nat)
    requires AllListed(rollouts) && j < |rollouts|
    ensures var offset := |deployments| + |statefulSets| + |daemonSets|;
            var r := Collect(deployments, statefulSets, daemonSets, Some(rollouts));
            offset + j < |r| && r[offset + j] == RolloutRecord(rollouts[j])
  {
    var a, b := CoreRecords(deployments, Deployment), CoreRecords(statefulSets, StatefulSet);
    var c, d := CoreRecords(daemonSets, DaemonSet), Rollouts(Some(rollouts));
    assert Collect(deployments, statefulSets, daemonSets, Some(rollouts)) == a + b + c + d;
    InFourthRun(a, b, c, d, j);
  }

  lemma InFirstRun(a: seq<Workload>, b: seq<Workload>, c: seq<Workload>, d: seq<Workload>, i: int)
    requires 0 <= i < |a|
    ensures (a + b + c + d)[i] == a[i]
  {
  }

  lemma InSecondRun(a: seq<Workload>, b: seq<Workload>, c: seq<Workload>, d: seq<Workload>, i: int)
    requires 0 <= i < |b|
    ensures (a + b + c + d)[|a| + i] == b[i]
  {
  }

  lemma InThirdRun(a: seq<Workload>, b: seq<Workload>, c: seq<Workload>, d: seq<Workload>, i: int)
    requires 0 <= i < |c|
    ensures (a + b + c + d)[|a| + |b| + i] == c[i]
  {
  }

  lemma InFourthRun(a: seq<Workload>, b: seq<Workload>, c: seq<Workload>, d: seq<Workload>, i: int)
    requires 0 <= i < |d|
    ensures |a| + |b| + |c| + i < |a + b + c + d|
    ensures (a + b + c + d)[|a| + |b| + |c| + i] == d[i]
  {
  }

  lemma LastRun(a: seq<Workload>, b: seq<Workload>, c: seq<Workload>, d: seq<Workload>)
    ensures (a + b + c + d)[|a| + |b| + |c|..] == d
  {
  }

  lemma InSomeRun(a: seq<Workload>, b: seq<Workload>, c: seq<Workload>, d: seq<Workload>, w: Workload)
    requires w in a + b + c + d
    ensures w in a || w in b || w in c || w in d
  {
  }

  // ---------------------------------------------------------------------------
  // Each listing is recovered from the records by its kind
  // ---------------------------------------------------------------------------

  /** The records of kind `k`, in order. */
  function OfKind(ws: seq<Workload>, k: Kind): seq<Workload>
  {
    if ws == [] then [] else (if ws[0].kind == k then [ws[0]] else []) + OfKind(ws[1..], k)
  }

  lemma {:induction false} OfKindAppend(a: seq<Workload>, b: seq<Workload>, k: Kind)
    ensures OfKind(a + b, k) == OfKind(a, k) + OfKind(b, k)
  {
    if a != [] {
      assert (a + b)[0] == a[0];
      assert (a + b)[1..] == a[1..] + b;
      OfKindAppend(a[1..], b, k);
    } else {
      assert a + b == b;
    }
  }

  /** A run all of kind `k` is kept whole by the filter for `k`. */
  lemma {:induction false} OfKindAll(ws: seq<Workload>, k: Kind)
    requires forall w :: w in ws ==> w.kind == k
    ensures OfKind(ws, k) == ws
  {
    if ws != [] {
      assert ws[0] in ws;
      assert forall w :: w in ws[1..] ==> w in ws;
      OfKindAll(ws[1..], k);
      assert ws == [ws[0]] + ws[1..];
    }
  }

  /** A run with no record of kind `k` is removed whole by the filter for `k`. */
  lemma {:induction false} OfKindNone(ws: seq<Workload>, k: Kind)
    requires forall w :: w in ws ==> w.kind != k
    ensures OfKind(ws, k) == []
  {
    if ws != [] {
      assert ws[0] in ws;
      assert forall w :: w in ws[1..] ==> w in ws;
      OfKindNone(ws[1..], k);
    }
  }

  /** Filtering four concatenated runs by one kind filters each run. */
  lemma OfKindFour(a: seq<Workload>, b: seq<Workload>, c: seq<Workload>, d: seq<Workload>, k: Kind)
    ensures OfKind(a + b + c + d, k) == OfKind(a, k) + OfKind(b, k) + OfKind(c, k) + OfKind(d, k)
  {
    OfKindAppend(a + b + c, d, k);
    OfKindAppend(a + b, c, k);
    OfKindAppend(a, b, k);
  }

  /** The filter for the kind of the first of four runs gives back that run. */
  lemma PickFirst(a: seq<Workload>, b: seq<Workload>, c: seq<Workload>, d: seq<Workload>, k: Kind)
    requires forall w :: w in a ==> w.kind == k
    requires forall w :: w in b ==> w.kind != k
    requires forall w :: w in c ==> w.kind != k
    requires forall w :: w in d ==> w.kind != k
    ensures OfKind(a + b + c + d, k) == a
  {
    var e: seq<Workload> := [];
    OfKindFour(a, b, c, d, k);
    OfKindAll(a, k);
    OfKindNone(b, k);
    OfKindNone(c, k);
    OfKindNone(d, k);
    assert a + e + e + e == a;
  }

  lemma PickSecond(a: seq<Workload>, b: seq<Workload>, c: seq<Workload>, d: seq<Workload>, k: Kind)
    requires forall w :: w in a ==> w.kind != k
    requires forall w :: w in b ==> w.kind == k
    requires forall w :: w in c ==> w.kind != k
    requires forall w :: w in d ==> w.kind != k
    ensures OfKind(a + b + c + d, k) == b
  {
    var e: seq<Workload> := [];
    OfKindFour(a, b, c, d, k);
    OfKindNone(a, k);
    OfKindAll(b, k);
    OfKindNone(c, k);
    OfKindNone(d, k);
    assert e + b + e + e == b;
  }

  lemma PickThird(a: seq<Workload>, b: seq<Workload>, c: seq<Workload>, d: seq<Workload>, k: Kind)
    requires forall w :: w in a ==> w.kind != k
    requires forall w :: w in b ==> w.kind != k
    requires forall w :: w in c ==> w.kind == k
    requires forall w :: w in d ==> w.kind != k
    ensures OfKind(a + b + c + d, k) == c
  {
    var e: seq<Workload> := [];
    OfKindFour(a, b, c, d, k);
    OfKindNone(a, k);
    OfKindNone(b, k);
    OfKindAll(c, k);
    OfKindNone(d, k);
    assert e + e + c + e == c;
  }

  lemma PickFourth(a: seq<Workload>, b: seq<Workload>, c: seq<Workload>, d: seq<Workload>, k: Kind)
    requires forall w :: w in a ==> w.kind != k
    requires forall w :: w in b ==> w.kind != k
    requires forall w :: w in c ==> w.kind != k
    requires forall w :: w in d ==> w.kind == k
    ensures OfKind(a + b + c + d, k) == d
  {
    var e: seq<Workload> := [];
    OfKindFour(a, b, c, d, k);
    OfKindNone(a, k);
    OfKindNone(b, k);
    OfKindNone(c, k);
    OfKindAll(d, k);
    assert e + e + e + d == d;
  }

  /**
   * The records of each kind are exactly that kind's listing, in listing order:
   * `get_workloads` neither mixes, drops nor reorders the listings.
   */
  lemma CollectByKind(
    deployments: seq<RawWorkload>,
    statefulSets: seq<RawWorkload>,
    daemonSets: seq<RawWorkload>,
    rollouts: Option<seq<RawRollout>>)
    ensures var r := Collect(deployments, statefulSets, daemonSets, rollouts);
            && OfKind(r, Deployment) == CoreRecords(deployments, Deployment)
            && OfKind(r, StatefulSet) == CoreRecords(statefulSets, StatefulSet)
            && OfKind(r, DaemonSet) == CoreRecords(daemonSets, DaemonSet)
            && OfKind(r, Rollout) == Rollouts(rollouts)
  {
    var a := CoreRecords(deployments, Deployment);
    var b := CoreRecords(statefulSets, StatefulSet);
    var c := CoreRecords(daemonSets, DaemonSet);
    var d := Rollouts(rollouts);
    assert Collect(deployments, statefulSets, daemonSets, rollouts) == a + b + c + d;
    PickFirst(a, b, c, d, Deployment);
    PickSecond(a, b, c, d, StatefulSet);
    PickThird(a, b, c, d, DaemonSet);
    PickFourth(a, b, c, d, Rollout);
  }
}
