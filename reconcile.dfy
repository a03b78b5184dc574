/**
 * The reconciliation pass of `main` (main.py:173-209): every workload is either
 * dropped by `--hide-zero-replicas`, or classified by looking its selector key up
 * in its own namespace's slot of the PDB index, and appended to `existing` (with
 * the PDB's name) or to `missing` (with the computed key). The summary counts
 * both lists; `--hide-pdb` only hides the printed `existing` lines.
 */
module Reconcile {
  import opened Wrappers
  import opened Selector
  import opened PdbIndex
  import opened Workloads

  /**
   * One output tuple `(ns, name, detail, kind, replicas)`: in `existing` the
   * detail is the matched PDB's name, in `missing` the workload's selector key.
   */
  datatype Entry = Entry(namespace: string, name: string, detail: string, kind: Kind, replicas: Option<int>)

  datatype Report = Report(existing: seq<Entry>, missing: seq<Entry>)

  /**
   * The run ends with an uncaught `AttributeError` when a workload that is not
   * dropped has no `match_labels` (`labels.items()` at main.py:183).
   */
  datatype Abort = NoMatchLabels(namespace: string, name: string)

  /** `args.hide_zero_replicas and replicas == 0` (main.py:178). */
  predicate Dropped(w: Workload, hideZeroReplicas: bool)
  {
    hideZeroReplicas && w.replicas == Some(0)
  }

  predicate Aborts(w: Workload, hideZeroReplicas: bool)
  {
    !Dropped(w, hideZeroReplicas) && w.matchLabels.None?
  }

  // ---------------------------------------------------------------------------
  // The loop, step by step
  // ---------------------------------------------------------------------------

  /**
   * Classifying a labelled workload (main.py:183-193): its selector key is
   * looked up in its own namespace's slot, `pdb_map.get(ns, {})`.
   */
  function Append(r: Report, w: Workload, labels: seq<Label>, pdbMap: Index): Report
  {
    var selector := SelectorKey(labels);
    var slot := Slot(pdbMap, w.namespace);
    if selector in slot then
      Report(r.existing + [Entry(w.namespace, w.name, slot[selector], w.kind, w.replicas)], r.missing)
    else
      Report(r.existing, r.missing + [Entry(w.namespace, w.name, selector, w.kind, w.replicas)])
  }

  /** One iteration of the loop body (main.py:178-193). */
  function Step(r: Report, w: Workload, pdbMap: Index, hideZeroReplicas: bool): Result<Report, Abort>
  {
    if Dropped(w, hideZeroReplicas) then Success(r)
    else match w.matchLabels
      case None => Failure(NoMatchLabels(w.namespace, w.name))
      case Some(labels) => Success(Append(r, w, labels, pdbMap))
  }

  /** The loop's outcome over a prefix of the workloads. */
  function Reconciled(ws: seq<Workload>, pdbMap: Index, hideZeroReplicas: bool): Result<Report, Abort>
  {
    if ws == [] then Success(Report([], []))
    else match Reconciled(ws[..|ws| - 1], pdbMap, hideZeroReplicas)
      case Failure(e) => Failure(e)
      case Success(r) => Step(r, ws[|ws| - 1], pdbMap, hideZeroReplicas)
  }

  lemma {:induction false} AbortPersists(ws: seq<Workload>, k: nat, pdbMap: Index, hideZeroReplicas: bool)
    requires k <= |ws|
    requires Reconciled(ws[..k], pdbMap, hideZeroReplicas).Failure?
    ensures Reconciled(ws, pdbMap, hideZeroReplicas) == Reconciled(ws[..k], pdbMap, hideZeroReplicas)
    decreases |ws| - k
  {
    if k < |ws| {
      assert ws[..k + 1][..k] == ws[..k];
      AbortPersists(ws, k + 1, pdbMap, hideZeroReplicas);
    } else {
      assert ws[..k] == ws;
    }
  }

  /** The loop's outcome after one more workload. */
  lemma ReconciledPrefix(ws: seq<Workload>, i: nat, pdbMap: Index, hideZeroReplicas: bool)
    requires i < |ws|
    ensures var before := Reconciled(ws[..i], pdbMap, hideZeroReplicas);
            Reconciled(ws[..i + 1], pdbMap, hideZeroReplicas) ==
              if before.Failure? then before else Step(before.value, ws[i], pdbMap, hideZeroReplicas)
  {
    assert ws[..i + 1][..i] == ws[..i];
  }

  /** The `for` loop of `main`, appending to `existing` and `missing` in place. */
  method Reconcile(workloads: seq<Workload>, pdbMap: Index, hideZeroReplicas: bool)
    returns (result: Result<Report, Abort>)
    ensures result == Reconciled(workloads, pdbMap, hideZeroReplicas)
  {
    var missing: seq<Entry> := [];
    var existing: seq<Entry> := [];
    var i := 0;
    while i < |workloads|
      invariant 0 <= i <= |workloads|
      invariant Reconciled(workloads[..i], pdbMap, hideZeroReplicas) == Success(Report(existing, missing))
    {
      var w := workloads[i];
      ReconciledPrefix(workloads, i, pdbMap, hideZeroReplicas);
      if hideZeroReplicas && w.replicas == Some(0) {
        i := i + 1;
        continue;
      }
      if w.matchLabels.None? {
        result := Failure(NoMatchLabels(w.namespace, w.name));
        AbortPersists(workloads, i + 1, pdbMap, hideZeroReplicas);
        return;
      }
      var selector := SelectorKey(w.matchLabels.value);
      if w.namespace in pdbMap && selector in pdbMap[w.namespace] {
        existing := existing + [Entry(w.namespace, w.name, pdbMap[w.namespace][selector], w.kind, w.replicas)];
      } else {
        missing := missing + [Entry(w.namespace, w.name, selector, w.kind, w.replicas)];
      }
      i := i + 1;
    }
    assert workloads[..|workloads|] == workloads;
    result := Success(Report(existing, missing));
  }

  // ---------------------------------------------------------------------------
  // Reference: filter, then partition
  // ---------------------------------------------------------------------------

  /** The workloads the zero-replica filter lets through, in input order. */
  function Kept(ws: seq<Workload>, hideZeroReplicas: bool): seq<Workload>
  {
    if ws == [] then []
    else
      var w := ws[|ws| - 1];
      Kept(ws[..|ws| - 1], hideZeroReplicas) + if Dropped(w, hideZeroReplicas) then [] else [w]
  }

  /** The workload's selector key is in its own namespace's slot. */
  predicate Protected(w: Workload, pdbMap: Index)
  {
    w.matchLabels.Some? && SelectorKey(w.matchLabels.value) in Slot(pdbMap, w.namespace)
  }

  predicate Unprotected(w: Workload, pdbMap: Index)
  {
    w.matchLabels.Some? && SelectorKey(w.matchLabels.value) !in Slot(pdbMap, w.namespace)
  }

  function ExistingEntry(w: Workload, pdbMap: Index): Entry
    requires Protected(w, pdbMap)
  {
    Entry(w.namespace, w.name, Slot(pdbMap, w.namespace)[SelectorKey(w.matchLabels.value)], w.kind, w.replicas)
  }

  function MissingEntry(w: Workload): Entry
    requires w.matchLabels.Some?
  {
    Entry(w.namespace, w.name, SelectorKey(w.matchLabels.value), w.kind, w.replicas)
  }

  /** The protected workloads' entries, in input order. */
  function ExistingOf(ws: seq<Workload>, pdbMap: Index): seq<Entry>
  {
    if ws == [] then []
    else
      var w := ws[|ws| - 1];
      ExistingOf(ws[..|ws| - 1], pdbMap) + if Protected(w, pdbMap) then [ExistingEntry(w, pdbMap)] else []
  }

  /** The unprotected workloads' entries, in input order. */
  function MissingOf(ws: seq<Workload>, pdbMap: Index): seq<Entry>
  {
    if ws == [] then []
    else
      var w := ws[|ws| - 1];
      MissingOf(ws[..|ws| - 1], pdbMap) + if Unprotected(w, pdbMap) then [MissingEntry(w)] else []
  }

  /** `ws[i]` is the first workload that ends the run. */
  predicate FirstAbort(ws: seq<Workload>, hideZeroReplicas: bool, i: int)
  {
    0 <= i < |ws| && Aborts(ws[i], hideZeroReplicas)
    && forall j :: 0 <= j < i ==> !Aborts(ws[j], hideZeroReplicas)
  }

  /** What one step of the loop does with a workload that does not end the run. */
  lemma StepKept(r: Report, w: Workload, pdbMap: Index, hideZeroReplicas: bool)
    requires !Aborts(w, hideZeroReplicas)
    ensures Step(r, w, pdbMap, hideZeroReplicas) ==
              if Dropped(w, hideZeroReplicas) then Success(r)
              else Success(Report(
                r.existing + (if Protected(w, pdbMap) then [ExistingEntry(w, pdbMap)] else []),
                r.missing + (if Unprotected(w, pdbMap) then [MissingEntry(w)] else [])))
  {
    if !Dropped(w, hideZeroReplicas) {
      var labels := w.matchLabels.value;
      if SelectorKey(labels) in Slot(pdbMap, w.namespace) {
        assert Append(r, w, labels, pdbMap) == Report(r.existing + [ExistingEntry(w, pdbMap)], r.missing);
        assert r.missing + [] == r.missing;
      } else {
        assert Append(r, w, labels, pdbMap) == Report(r.existing, r.missing + [MissingEntry(w)]);
        assert r.existing + [] == r.existing;
      }
    }
  }

  /** One step fails exactly on a workload that is kept and has no match labels. */
  lemma StepSucceeds(r: Report, w: Workload, pdbMap: Index, hideZeroReplicas: bool)
    ensures Step(r, w, pdbMap, hideZeroReplicas).Success? <==> !Aborts(w, hideZeroReplicas)
  {
  }

  /** No workload of `ws` ends the run. */
  predicate NoAborts(ws: seq<Workload>, hideZeroReplicas: bool)
  {
    forall i :: 0 <= i < |ws| ==> !Aborts(ws[i], hideZeroReplicas)
  }

  lemma NoAbortsSnoc(ws: seq<Workload>, hideZeroReplicas: bool)
    requires ws != []
    ensures NoAborts(ws, hideZeroReplicas) <==>
              NoAborts(ws[..|ws| - 1], hideZeroReplicas) && !Aborts(ws[|ws| - 1], hideZeroReplicas)
  {
    var init := ws[..|ws| - 1];
    assert forall i :: 0 <= i < |init| ==> init[i] == ws[i];
  }

  /** The loop completes exactly when no kept workload lacks match labels. */
  lemma {:induction false} ReconciledSucceeds(ws: seq<Workload>, pdbMap: Index, hideZeroReplicas: bool)
    ensures Reconciled(ws, pdbMap, hideZeroReplicas).Success? <==> NoAborts(ws, hideZeroReplicas)
  {
    if ws != [] {
      var n := |ws| - 1;
      ReconciledSucceeds(ws[..n], pdbMap, hideZeroReplicas);
      NoAbortsSnoc(ws, hideZeroReplicas);
      var before := Reconciled(ws[..n], pdbMap, hideZeroReplicas);
      if before.Success? {
        StepSucceeds(before.value, ws[n], pdbMap, hideZeroReplicas);
      }
    }
  }

  /**
   * When the loop completes, `existing` and `missing` are the protected and the
   * unprotected kept workloads, each in input order.
   */
  lemma {:induction false} ReconciledPartitions(ws: seq<Workload>, pdbMap: Index, hideZeroReplicas: bool)
    requires Reconciled(ws, pdbMap, hideZeroReplicas).Success?
    ensures Reconciled(ws, pdbMap, hideZeroReplicas).value ==
              Report(ExistingOf(Kept(ws, hideZeroReplicas), pdbMap), MissingOf(Kept(ws, hideZeroReplicas), pdbMap))
  {
    if ws != [] {
      var n := |ws| - 1;
      var init, w := ws[..n], ws[n];
      var r := Reconciled(init, pdbMap, hideZeroReplicas).value;
      ReconciledPartitions(init, pdbMap, hideZeroReplicas);
      var kept := Kept(init, hideZeroReplicas);
      StepKept(r, w, pdbMap, hideZeroReplicas);
      if !Dropped(w, hideZeroReplicas) {
        assert Kept(ws, hideZeroReplicas) == kept + [w];
        assert (kept + [w])[..|kept|] == kept;
      } else {
        assert Kept(ws, hideZeroReplicas) == kept;
      }
    }
  }

  /** When the loop does not complete, it stops at the first kept workload without match labels. */
  lemma {:induction false} ReconciledAborts(ws: seq<Workload>, pdbMap: Index, hideZeroReplicas: bool)
    requires Reconciled(ws, pdbMap, hideZeroReplicas).Failure?
    ensures exists i :: FirstAbort(ws, hideZeroReplicas, i)
              && Reconciled(ws, pdbMap, hideZeroReplicas).error == NoMatchLabels(ws[i].namespace, ws[i].name)
  {
    var n := |ws| - 1;
    var init, w := ws[..n], ws[n];
    if Reconciled(init, pdbMap, hideZeroReplicas).Failure? {
      ReconciledAborts(init, pdbMap, hideZeroReplicas);
      var i :| FirstAbort(init, hideZeroReplicas, i)
               && Reconciled(init, pdbMap, hideZeroReplicas).error == NoMatchLabels(init[i].namespace, init[i].name);
      forall j | 0 <= j <= i
        ensures ws[j] == init[j]
      {
      }
      assert FirstAbort(ws, hideZeroReplicas, i);
    } else {
      ReconciledSucceeds(init, pdbMap, hideZeroReplicas);
      forall j | 0 <= j < n
        ensures !Aborts(ws[j], hideZeroReplicas)
      {
        assert ws[j] == init[j];
      }
      assert FirstAbort(ws, hideZeroReplicas, n);
    }
  }

  /** The filter keeps exactly the workloads it does not drop. */
  lemma {:induction false} KeptExactly(ws: seq<Workload>, hideZeroReplicas: bool, w: Workload)
    ensures w in Kept(ws, hideZeroReplicas) <==> w in ws && !Dropped(w, hideZeroReplicas)
  {
    if ws != [] {
      var n := |ws| - 1;
      KeptExactly(ws[..n], hideZeroReplicas, w);
      assert ws == ws[..n] + [ws[n]];
    }
  }

  /** Without `--hide-zero-replicas` nothing is dropped. */
  lemma {:induction false} NothingDroppedByDefault(ws: seq<Workload>)
    ensures Kept(ws, false) == ws
  {
    if ws != [] {
      var n := |ws| - 1;
      NothingDroppedByDefault(ws[..n]);
      assert ws == ws[..n] + [ws[n]];
    }
  }

  /**
   * Every kept workload lands in exactly one of the two lists, so together they
   * are as long as the kept workloads: the reported total.
   */
  lemma {:induction false} PartitionCounts(ws: seq<Workload>, pdbMap: Index)
    requires forall i :: 0 <= i < |ws| ==> ws[i].matchLabels.Some?
    ensures |ExistingOf(ws, pdbMap)| + |MissingOf(ws, pdbMap)| == |ws|
  {
    if ws != [] {
      PartitionCounts(ws[..|ws| - 1], pdbMap);
    }
  }

  /** The kept workloads of a run that completes all have match labels. */
  lemma {:induction false} KeptLabelled(ws: seq<Workload>, hideZeroReplicas: bool)
    requires forall i :: 0 <= i < |ws| ==> !Aborts(ws[i], hideZeroReplicas)
    ensures forall i :: 0 <= i < |Kept(ws, hideZeroReplicas)| ==> Kept(ws, hideZeroReplicas)[i].matchLabels.Some?
  {
    forall i | 0 <= i < |Kept(ws, hideZeroReplicas)|
      ensures Kept(ws, hideZeroReplicas)[i].matchLabels.Some?
    {
      var w := Kept(ws, hideZeroReplicas)[i];
      KeptExactly(ws, hideZeroReplicas, w);
      var j :| 0 <= j < |ws| && ws[j] == w;
    }
  }

  /** `e` is the `existing` entry of the protected workload `w`. */
  predicate ExistingEntryOf(e: Entry, w: Workload, pdbMap: Index)
  {
    Protected(w, pdbMap) && e == ExistingEntry(w, pdbMap)
  }

  /** `e` is the `missing` entry of the unprotected workload `w`. */
  predicate MissingEntryOf(e: Entry, w: Workload, pdbMap: Index)
  {
    Unprotected(w, pdbMap) && e == MissingEntry(w)
  }

  /**
   * Each `existing` entry is a protected workload carrying the name stored for
   * its key in its namespace.
   */
  lemma {:induction false} ExistingCarriesPdbName(ws: seq<Workload>, pdbMap: Index, k: nat)
    requires k < |ExistingOf(ws, pdbMap)|
    ensures exists w :: w in ws && ExistingEntryOf(ExistingOf(ws, pdbMap)[k], w, pdbMap)
  {
    var n := |ws| - 1;
    var init, last := ws[..n], ws[n];
    assert ws == init + [last];
    if k < |ExistingOf(init, pdbMap)| {
      ExistingCarriesPdbName(init, pdbMap, k);
      var w :| w in init && ExistingEntryOf(ExistingOf(init, pdbMap)[k], w, pdbMap);
      assert ExistingOf(ws, pdbMap)[k] == ExistingOf(init, pdbMap)[k];
      assert w in ws;
    } else {
      assert ExistingEntryOf(ExistingOf(ws, pdbMap)[k], last, pdbMap);
      assert last in ws;
    }
  }

  /**
   * Each `missing` entry is an unprotected workload carrying its own selector
   * key, which its namespace's slot does not hold.
   */
  lemma {:induction false} MissingCarriesKey(ws: seq<Workload>, pdbMap: Index, k: nat)
    requires k < |MissingOf(ws, pdbMap)|
    ensures exists w :: w in ws && MissingEntryOf(MissingOf(ws, pdbMap)[k], w, pdbMap)
  {
    var n := |ws| - 1;
    var init, last := ws[..n], ws[n];
    assert ws == init + [last];
    if k < |MissingOf(init, pdbMap)| {
      MissingCarriesKey(init, pdbMap, k);
      var w :| w in init && MissingEntryOf(MissingOf(init, pdbMap)[k], w, pdbMap);
      assert MissingOf(ws, pdbMap)[k] == MissingOf(init, pdbMap)[k];
      assert w in ws;
    } else {
      assert MissingEntryOf(MissingOf(ws, pdbMap)[k], last, pdbMap);
      assert last in ws;
    }
  }

  // ---------------------------------------------------------------------------
  // Matching against the PDBs themselves
  // ---------------------------------------------------------------------------

  /**
   * PDBs and workloads share one canonicalisation, so a workload is protected
   * exactly when a well-formed PDB of its own namespace has its selector key.
   */
  lemma ProtectedIff(pdbs: seq<Pdb>, w: Workload)
    requires w.matchLabels.Some?
    ensures Protected(w, IndexOf(pdbs)) <==>
              exists i :: 0 <= i < |pdbs| && pdbs[i].namespace == w.namespace && pdbs[i].matchLabels.Some?
                && SelectorKey(pdbs[i].matchLabels.value) == SelectorKey(w.matchLabels.value)
  {
    IndexHas(pdbs, w.namespace, SelectorKey(w.matchLabels.value));
  }

  /**
   * The PDB a protected workload is reported with is the last PDB of its
   * namespace, in input order, whose selector key equals the workload's.
   */
  lemma MatchedPdb(pdbs: seq<Pdb>, w: Workload)
    requires Protected(w, IndexOf(pdbs))
    ensures exists i :: LastWriter(pdbs, w.namespace, SelectorKey(w.matchLabels.value), i)
              && ExistingEntry(w, IndexOf(pdbs)).detail == pdbs[i].name
  {
    IndexNamesLastWriter(pdbs, w.namespace, SelectorKey(w.matchLabels.value));
  }

  /**
   * A PDB whose label mapping equals the workload's, in the workload's
   * namespace, protects it, whatever order either mapping's labels were
   * inserted in.
   */
  lemma SameSelectorProtects(pdbs: seq<Pdb>, i: nat, w: Workload)
    requires i < |pdbs| && pdbs[i].namespace == w.namespace
    requires pdbs[i].matchLabels.Some? && w.matchLabels.Some?
    requires IsDict(pdbs[i].matchLabels.value) && IsDict(w.matchLabels.value)
    requires ToMap(pdbs[i].matchLabels.value) == ToMap(w.matchLabels.value)
    ensures Protected(w, IndexOf(pdbs))
  {
    EqualMappingsEqualKeys(pdbs[i].matchLabels.value, w.matchLabels.value);
    IndexHas(pdbs, w.namespace, SelectorKey(w.matchLabels.value));
  }

  /**
   * Matching is confined to a namespace: PDBs of other namespaces never protect
   * a workload, even with an identical selector.
   */
  lemma OtherNamespacesIgnored(pdbs: seq<Pdb>, w: Workload)
    requires forall i :: 0 <= i < |pdbs| ==> pdbs[i].namespace != w.namespace
    ensures w.namespace !in IndexOf(pdbs)
    ensures !Protected(w, IndexOf(pdbs))
  {
    NamespaceSlots(pdbs, w.namespace);
  }

  /**
   * With `--hide-zero-replicas`, collected deployments, stateful sets and
   * daemon sets are never dropped: they carry no replica count.
   */
  lemma CoreKindsNeverDropped(
    deployments: seq<RawWorkload>, statefulSets: seq<RawWorkload>, daemonSets: seq<RawWorkload>,
    rollouts: Option<seq<RawRollout>>, hideZeroReplicas: bool, w: Workload)
    requires w in Collect(deployments, statefulSets, daemonSets, rollouts)
    requires w.kind != Rollout
    ensures w in Kept(Collect(deployments, statefulSets, daemonSets, rollouts), hideZeroReplicas)
  {
    CollectLayout(deployments, statefulSets, daemonSets, rollouts);
    KeptExactly(Collect(deployments, statefulSets, daemonSets, rollouts), hideZeroReplicas, w);
  }

  /**
   * A rollout whose `matchLabels` is an explicit `null` is collected, and, unless
   * the zero-replica filter drops it, ends the run at `labels.items()`.
   */
  lemma NullSelectorEndsRun(
    deployments: seq<RawWorkload>, statefulSets: seq<RawWorkload>, daemonSets: seq<RawWorkload>,
    rollouts: seq<RawRollout>, j: nat, pdbMap: Index, hideZeroReplicas: bool)
    requires AllListed(rollouts) && j < |rollouts| && rollouts[j].matchLabels.Null?
    requires !Dropped(RolloutRecord(rollouts[j]), hideZeroReplicas)
    ensures Reconciled(Collect(deployments, statefulSets, daemonSets, Some(rollouts)), pdbMap, hideZeroReplicas).Failure?
  {
    var ws := Collect(deployments, statefulSets, daemonSets, Some(rollouts));
    var idx := |deployments| + |statefulSets| + |daemonSets| + j;
    CollectedRollout(deployments, statefulSets, daemonSets, rollouts, j);
    assert Aborts(ws[idx], hideZeroReplicas);
    assert !NoAborts(ws, hideZeroReplicas);
    ReconciledSucceeds(ws, pdbMap, hideZeroReplicas);
  }

  // ---------------------------------------------------------------------------
  // The whole pass and what it reports
  // ---------------------------------------------------------------------------

  datatype Summary = Summary(withPdb: nat, withoutPdb: nat, total: nat)

  /** What is printed: the shown entries and the summary line. */
  datatype Output = Output(shownExisting: seq<Entry>, shownMissing: seq<Entry>, summary: Summary)

  /** Printing (main.py:195-209): `--hide-pdb` hides `existing` but the summary counts it. */
  function Display(r: Report, hidePdb: bool): Output
  {
    Output(
      if hidePdb then [] else r.existing,
      r.missing,
      Summary(|r.existing|, |r.missing|, |r.existing| + |r.missing|))
  }

  /**
   * `build_pdb_map`, the loop and the summary, over the fetched workloads and
   * PDBs. The summary does not depend on `hidePdb`; its total is the number of
   * workloads not dropped, split into the protected and the unprotected ones.
   */
  method Audit(workloads: seq<Workload>, pdbs: seq<Pdb>, hidePdb: bool, hideZeroReplicas: bool)
    returns (out: Result<Output, Abort>)
    ensures out.Success? <==> forall i :: 0 <= i < |workloads| ==> !Aborts(workloads[i], hideZeroReplicas)
    ensures out.Success? ==>
              var kept := Kept(workloads, hideZeroReplicas);
              && out.value.summary == Summary(|ExistingOf(kept, IndexOf(pdbs))|, |MissingOf(kept, IndexOf(pdbs))|, |kept|)
              && out.value.shownExisting == (if hidePdb then [] else ExistingOf(kept, IndexOf(pdbs)))
              && out.value.shownMissing == MissingOf(kept, IndexOf(pdbs))
    ensures out.Failure? ==>
              exists i :: FirstAbort(workloads, hideZeroReplicas, i)
                && out.error == NoMatchLabels(workloads[i].namespace, workloads[i].name)
  {
    var pdbMap := BuildPdbMap(pdbs);
    var result := Reconcile(workloads, pdbMap, hideZeroReplicas);
    ReconciledSucceeds(workloads, pdbMap, hideZeroReplicas);
    match result {
      case Failure(e) =>
        ReconciledAborts(workloads, pdbMap, hideZeroReplicas);
        out := Failure(e);
      case Success(r) =>
        ReconciledPartitions(workloads, pdbMap, hideZeroReplicas);
        KeptLabelled(workloads, hideZeroReplicas);
        PartitionCounts(Kept(workloads, hideZeroReplicas), pdbMap);
        out := Success(Display(r, hidePdb));
    }
  }

  // ---------------------------------------------------------------------------
  // Two worked scenarios
  // ---------------------------------------------------------------------------

  /** A deployment and a PDB with the same selector in namespace `a`: one protected entry. */
  lemma ScenarioMatch()
    ensures var d1 := Workload("a", "d1", Some([Label("app", "foo")]), Deployment, None);
            var pdb1 := Pdb("a", "pdb1", Some([Label("app", "foo")]));
            Reconciled([d1], IndexOf([pdb1]), false)
              == Success(Report([Entry("a", "d1", "pdb1", Deployment, None)], []))
  {
    var labels := [Label("app", "foo")];
    assert Sort(labels) == labels;
    assert SelectorKey(labels) == "app=foo";
    var pdb1 := Pdb("a", "pdb1", Some(labels));
    var d1 := Workload("a", "d1", Some(labels), Deployment, None);
    assert IndexOf([pdb1][..0]) == IndexOf([]) == map[];
    var idx := IndexOf([pdb1]);
    assert idx == Add(map[], pdb1);
    assert Slot(idx, "a") == map["app=foo" := "pdb1"];
    assert [d1][..0] == [];
    var e := Entry("a", "d1", "pdb1", Deployment, None);
    assert Append(Report([], []), d1, labels, idx) == Report([] + [e], []);
    assert [] + [e] == [e];
  }

  /** The same deployment against a PDB selecting `app=bar`: one missing entry with key `app=foo`. */
  lemma ScenarioMiss()
    ensures var d1 := Workload("a", "d1", Some([Label("app", "foo")]), Deployment, None);
            var pdb1 := Pdb("a", "pdb1", Some([Label("app", "bar")]));
            Reconciled([d1], IndexOf([pdb1]), false)
              == Success(Report([], [Entry("a", "d1", "app=foo", Deployment, None)]))
  {
    var labels, other := [Label("app", "foo")], [Label("app", "bar")];
    assert Sort(labels) == labels && Sort(other) == other;
    assert SelectorKey(labels) == "app=foo";
    assert SelectorKey(other) == "app=bar";
    assert "app=foo" != "app=bar" by {
      assert "app=foo"[4] != "app=bar"[4];
    }
    var pdb1 := Pdb("a", "pdb1", Some(other));
    var d1 := Workload("a", "d1", Some(labels), Deployment, None);
    assert IndexOf([pdb1][..0]) == IndexOf([]) == map[];
    var idx := IndexOf([pdb1]);
    assert idx == Add(map[], pdb1);
    assert Slot(idx, "a") == map["app=bar" := "pdb1"];
    assert [d1][..0] == [];
    var e := Entry("a", "d1", "app=foo", Deployment, None);
    assert Append(Report([], []), d1, labels, idx) == Report([], [] + [e]);
    assert [] + [e] == [e];
  }
}
