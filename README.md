# PDB coverage check: selector matching and reconciliation

This project models the core of a command-line audit of a Kubernetes cluster.
The audit reports which workloads are covered by a PodDisruptionBudget (PDB).
Deployments, StatefulSets, DaemonSets and Argo Rollouts are matched against
PDBs through a canonical selector key. The key is the workload's (or PDB's)
`matchLabels` items, sorted, rendered as `key=value` and joined with commas.

The model has four modules:

- `Selector` (`selector.dfy`): the key.
  - Python's ordering of `str` and of `(str, str)` tuples.
  - `sorted`, modelled as an insertion sort.
  - The join.
  - The proofs that the key depends only on the mapping's contents, and that the
    converse holds for labels free of `,` and `=`.
  - A label mapping is represented by its items in dict iteration order, a
    `seq<Label>`. `IsDict` and `ToMap` relate that sequence to the mapping it
    stands for.
- `PdbIndex` (`pdb_index.dfy`): `build_pdb_map`.
  - The imperative loop `BuildPdbMap`, proved equal to the fold `IndexOf`.
  - The lemmas about that fold: which keys are present, which name they carry
    (last write wins), which namespaces get a slot, and that malformed PDBs are
    skipped.
- `Workloads` (`workloads.dfy`): the record `get_workloads` normalises each
  listed object to, after the listing calls.
  - Core kinds have no replica count.
  - A rollout's replica count defaults to 1 when the key is missing, and is
    `None` when it is `null`.
  - One rollout whose `matchLabels` cannot be reached loses the whole rollout
    batch. A `null` `matchLabels` is kept as a record without labels.
- `Reconcile` (`reconcile.dfy`): the classification loop of `main` and its
  summary.
  - The imperative loop `Reconcile`, proved equal to the step-by-step fold
    `Reconciled`.
  - That fold related to a reference definition: filter (`Kept`), then partition
    (`ExistingOf` / `MissingOf`).
  - `Audit`: the whole pass from fetched workloads and PDBs to the printed
    summary.

A workload that is not dropped by `--hide-zero-replicas` but has no
`match_labels` makes `labels.items()` (main.py:183) raise an `AttributeError`.
Nothing catches it, so the run ends there. The model follows the code:
`Reconcile` and `Audit` return `Failure(NoMatchLabels(ns, name))` for the first
such workload. Nothing catches the error, and the workload is not skipped.
A rollout whose `spec.selector.matchLabels` is an explicit `null` reaches the
loop this way.

## Model

| member | source | states |
|---|---|---|
| Selector.StrLessTotal | main.py:121 | Python's `str` order is total: of two different strings, one is less than the other |
| Selector.StrLessTransitive | main.py:121 | Python's `str` order is transitive |
| Selector.LabelLeAntisymmetric | main.py:121 | the `(key, value)` tuple order is antisymmetric, so `sorted` has one possible result |
| Selector.Sort | main.py:121 | `sorted(labels.items())` returns a permutation of the items |
| Selector.SortSorted | main.py:121 | the result of `sorted` is ordered by Python's tuple comparison |
| Selector.SortedUnique | main.py:121 | two ordered permutations of the same items are equal: the canonical form is unique |
| Selector.JoinItems | main.py:121 | the comma join is empty exactly when there are no items |
| Selector.EmptyKey | main.py:183-188 | only the empty label mapping has the empty selector key |
| Selector.KeyIgnoresOrder | main.py:183-188 | any two orderings of the same items give the same selector key |
| Selector.EqualMappingsEqualKeys | main.py:121 | two dicts with equal contents have equal selector keys, whatever their insertion order |
| Selector.ParseJoin | main.py:121 | for items without `,` and without `=` in keys, splitting the joined key at `,` and then at the first `=` gives the items back |
| Selector.EqualKeysEqualMappings | main.py:183-188 | for such clean labels the converse holds: equal selector keys come only from equal mappings |
| Selector.KeyCollision | main.py:121 | without that condition the key is not injective: `{"a": "b,c=d"}` and `{"a": "b", "c": "d"}` both give `a=b,c=d` |
| PdbIndex.Slot | main.py:190 | `pdb_map.get(ns, {})`: a namespace without an entry has the empty slot |
| PdbIndex.AddLookup | main.py:118-125 | one loop iteration: a malformed PDB changes nothing; otherwise only its own (namespace, key) entry changes, and it now names that PDB |
| PdbIndex.BuildPdbMap | main.py:113-127 | the in-place loop builds exactly the index of its input, PDB by PDB in input order |
| PdbIndex.IndexHas | main.py:117-125 | a key is in a namespace's slot exactly when some well-formed PDB of that namespace has that selector key |
| PdbIndex.IndexNamesLastWriter | main.py:117-122 | a present key names the last PDB in the input that wrote it (last write wins) |
| PdbIndex.NamespaceSlots | main.py:117-125 | a namespace has a slot exactly when it holds a well-formed PDB |
| PdbIndex.MalformedSkipped | main.py:119-125 | the index of a batch equals the index of its well-formed PDBs: a malformed PDB neither stops construction nor leaves a trace |
| PdbIndex.LastWriteWins | main.py:117-122 | adding a PDB makes its own entry name it and leaves every other (namespace, key) entry as it was |
| Workloads.CoreRecords | main.py:64-82 | record i is `(namespace, name, match_labels)` of listed object i, with that kind and no replica count |
| Workloads.RolloutRecord | main.py:92 | a rollout's record carries its own namespace, name and `matchLabels` (`None` for `null`); replicas are `spec.replicas`, 1 when the key is missing, `None` when it is `null` |
| Workloads.RolloutRecords | main.py:91-94 | one record per listed rollout, in listing order |
| Workloads.Rollouts | main.py:84-96 | a failed listing, or one rollout whose `matchLabels` cannot be reached, gives no rollouts at all; otherwise record i is the record of rollout i |
| Workloads.CollectLayout | main.py:56-98 | the collected records are the deployments, then the stateful sets, then the daemon sets, each element for element as listed, then exactly the rollout records; no core record has a replica count |
| Workloads.CollectByKind | main.py:56-98 | filtering the records by kind gives back each listing's records exactly, in listing order |
| Reconcile.Reconcile | main.py:173-193 | the in-place loop computes exactly the step-by-step fold `Reconciled`, including the early end at a workload without `match_labels` |
| Reconcile.AbortPersists | main.py:183 | once the loop has ended with an error, later workloads do not change the outcome |
| Reconcile.StepKept | main.py:178-193 | one iteration: a dropped workload changes nothing; otherwise it is appended to exactly one list, `existing` when its key is in its namespace's slot |
| Reconcile.ReconciledSucceeds | main.py:176-183 | the loop completes exactly when every workload not dropped has match labels |
| Reconcile.ReconciledPartitions | main.py:176-193 | a completed loop's `existing` and `missing` are the protected and the unprotected workloads not dropped, each in input order |
| Reconcile.ReconciledAborts | main.py:183 | a loop that does not complete stops at the first workload not dropped that has no match labels, and names that workload |
| Reconcile.KeptExactly | main.py:178-179 | a workload survives the zero-replica filter exactly when it is in the input and is not (flag set and replicas equal to 0) |
| Reconcile.NothingDroppedByDefault | main.py:178-179 | without `--hide-zero-replicas` no workload is dropped |
| Reconcile.CoreKindsNeverDropped | main.py:178-179 | a collected Deployment, StatefulSet or DaemonSet (replicas None) is never dropped by the flag |
| Reconcile.NullSelectorEndsRun | main.py:176-183 | a collected rollout with a `null` `matchLabels` that is not dropped makes the run end with an error |
| Reconcile.KeptLabelled | main.py:176-183 | in a run that completes, every workload not dropped has match labels |
| Reconcile.PartitionCounts | main.py:208-209 | every labelled workload lands in exactly one of the two lists, so their lengths add up to the number of workloads |
| Reconcile.ExistingCarriesPdbName | main.py:190-191 | each `existing` entry is a protected workload with its namespace, name, kind and replicas, carrying the PDB name stored for its key in its namespace |
| Reconcile.MissingCarriesKey | main.py:192-193 | each `missing` entry is an unprotected workload carrying its own computed selector key |
| Reconcile.ProtectedIff | main.py:183-190 | a workload is classified as having a PDB exactly when a well-formed PDB of its own namespace has the same selector key |
| Reconcile.MatchedPdb | main.py:190-191 | the PDB name reported for a protected workload is that of the last PDB of its namespace with its selector key |
| Reconcile.SameSelectorProtects | main.py:183-190 | a PDB in the workload's namespace whose label mapping equals the workload's protects it, whatever the insertion orders |
| Reconcile.OtherNamespacesIgnored | main.py:190 | PDBs of other namespaces never protect a workload, even with an identical selector; its namespace has no slot |
| Reconcile.Audit | main.py:171-209 | the whole pass fails exactly when a workload not dropped has no match labels, and then names the first one; otherwise the summary is (protected, unprotected, total not dropped), it does not depend on `--hide-pdb`, and `--hide-pdb` only empties the shown `existing` lines |
| Reconcile.ScenarioMatch | main.py:176-191 | a deployment and a PDB with selector `app=foo` in one namespace give one `existing` entry naming the PDB |
| Reconcile.ScenarioMiss | main.py:176-193 | against a PDB selecting `app=bar` the same deployment gives one `missing` entry with key `app=foo` |

## Left out

- Kubernetes API access is not modelled: `config.load_kube_config`, `test_kubernetes_connection`, `get_cluster_info`, `get_pdbs` and the list calls in `get_workloads`. They are network I/O. Their results are the input sequences of `Collect`, `BuildPdbMap` and `Audit`.
- A failed rollout listing is an input of `None` to `Workloads.Rollouts`. A failed PDB listing (`get_pdbs` returns `[]`) is the empty PDB sequence.
- Command-line parsing with `argparse` is not modelled. The two flags are the boolean parameters `hidePdb` and `hideZeroReplicas`.
- Logging and the formatted output lines are not modelled. `Reconcile.Display` keeps only which entries are shown and the three summary numbers.
- The fatal-error returns of `main` (failed kubeconfig, failed resource fetch) are not modelled. They happen before the modelled pass begins.
- Workloads.CoreRecords: does not model a Deployment, StatefulSet or DaemonSet whose `spec.selector` itself is missing. There, `get_workloads` raises, and the run ends before classification. The apps/v1 API requires that selector. A `None` `match_labels` is modelled and reaches the classification loop.
- Workloads.Rollouts: a rollout missing `metadata.namespace` or `metadata.name` is not modelled. Kubernetes always sets both on a namespaced custom resource.
- Selector.EqualKeysEqualMappings: the converse of the key holds only under `AllClean` (no `,` anywhere and no `=` in keys). The source does not check this. `Selector.KeyCollision` shows the converse failing without it. Kubernetes label syntax excludes both characters.
- Label values and keys are plain strings. The model checks neither Kubernetes label syntax nor Unicode details, and orders strings by code point as Python does.
