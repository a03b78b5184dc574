/**
 * The PodDisruptionBudget index (`build_pdb_map`, main.py:113-127): a two-level
 * dictionary namespace -> selector key -> PDB name, filled by one pass over the
 * PDBs in the order the cluster returned them.
 */
module PdbIndex {
  import opened Wrappers
  import opened Selector

  /**
   * A PodDisruptionBudget as the builder reads it. `matchLabels` is `None` when
   * `pdb.spec.selector` or its `match_labels` is missing, the two cases in which
   * the source's attribute access raises `AttributeError`.
   */
  datatype Pdb = Pdb(namespace: string, name: string, matchLabels: Option<seq<Label>>)

  /** namespace -> selector key -> PDB name */
  type Index = map<string, map<string, string>>

  /** `pdb_map.get(ns, {})`: a namespace absent from the index has no PDBs. */
  function Slot(idx: Index, ns: string): (slot: map<string, string>)
    ensures ns !in idx ==> slot == map[]
  {
    if ns in idx then idx[ns] else map[]
  }

  /** `p` is well formed, lives in `ns` and its selector key is `key`. */
  predicate Indexes(p: Pdb, ns: string, key: string)
  {
    p.namespace == ns && p.matchLabels.Some? && SelectorKey(p.matchLabels.value) == key
  }

  /**
   * One iteration of the loop (main.py:118-125): a malformed PDB is skipped;
   * otherwise `pdb_map[ns][selector] = name`, which creates the namespace's
   * slot when needed, overwrites an earlier PDB with the same key and leaves
   * every other entry alone.
   */
  function Add(idx: Index, p: Pdb): Index
  {
    match p.matchLabels
    case None => idx
    case Some(labels) =>
      idx[p.namespace := Slot(idx, p.namespace)[SelectorKey(labels) := p.name]]
  }

  /**
   * After `Add`, a namespace has a slot when it had one or `p` is well formed
   * and lives there; `key` is in a slot when it was or `p` wrote it, and it
   * names `p` exactly when `p` wrote it: nothing else changes.
   */
  lemma AddLookup(idx: Index, p: Pdb, ns: string, key: string)
    ensures ns in Add(idx, p) <==> ns in idx || (ns == p.namespace && p.matchLabels.Some?)
    ensures key in Slot(Add(idx, p), ns) <==> key in Slot(idx, ns) || Indexes(p, ns, key)
    ensures key in Slot(Add(idx, p), ns) ==>
              Slot(Add(idx, p), ns)[key] == if Indexes(p, ns, key) then p.name else Slot(idx, ns)[key]
  {
  }

  /** The index of a sequence of PDBs: each one added in turn. */
  function IndexOf(pdbs: seq<Pdb>): Index
  {
    if pdbs == [] then map[] else Add(IndexOf(pdbs[..|pdbs| - 1]), pdbs[|pdbs| - 1])
  }

  /** `build_pdb_map`: the loop that fills the dictionary in place. */
  method BuildPdbMap(pdbs: seq<Pdb>) returns (pdbMap: Index)
    ensures pdbMap == IndexOf(pdbs)
  {
    pdbMap := map[];
    var i := 0;
    while i < |pdbs|
      invariant 0 <= i <= |pdbs|
      invariant pdbMap == IndexOf(pdbs[..i])
    {
      var pdb := pdbs[i];
      var ns := pdb.namespace;
      assert pdbs[..i + 1][..i] == pdbs[..i];
      match pdb.matchLabels {
        case None =>
          // AttributeError: skipped with a warning
        case Some(labels) =>
          var selector := SelectorKey(labels);
          var slot := if ns in pdbMap then pdbMap[ns] else map[];
          pdbMap := pdbMap[ns := slot[selector := pdb.name]];
      }
      i := i + 1;
    }
    assert pdbs[..|pdbs|] == pdbs;
  }

  /** `pdbs[i]` wrote `key` in `ns` and no later PDB wrote it again. */
  predicate LastWriter(pdbs: seq<Pdb>, ns: string, key: string, i: int)
  {
    0 <= i < |pdbs| && Indexes(pdbs[i], ns, key)
    && forall j :: i < j < |pdbs| ==> !Indexes(pdbs[j], ns, key)
  }

  /** Some well-formed PDB of namespace `ns` has selector key `key`. */
  predicate Written(pdbs: seq<Pdb>, ns: string, key: string)
  {
    exists i :: 0 <= i < |pdbs| && Indexes(pdbs[i], ns, key)
  }

  /**
   * A key is present in a namespace's slot exactly when some well-formed PDB of
   * that namespace has that selector key: every well-formed PDB is indexed, and
   * nothing else is.
   */
  lemma {:induction false} IndexHas(pdbs: seq<Pdb>, ns: string, key: string)
    ensures key in Slot(IndexOf(pdbs), ns) <==> Written(pdbs, ns, key)
  {
    if pdbs != [] {
      var n := |pdbs| - 1;
      var init := pdbs[..n];
      IndexHas(init, ns, key);
      AddLookup(IndexOf(init), pdbs[n], ns, key);
      if Written(init, ns, key) {
        var i :| 0 <= i < |init| && Indexes(init[i], ns, key);
        assert pdbs[i] == init[i];
      }
      if Written(pdbs, ns, key) && !Indexes(pdbs[n], ns, key) {
        var i :| 0 <= i < |pdbs| && Indexes(pdbs[i], ns, key);
        assert init[i] == pdbs[i];
      }
    }
  }

  /** A last writer of a prefix stays the last writer when the next PDB does not write its key. */
  lemma LastWriterExtends(pdbs: seq<Pdb>, ns: string, key: string, i: int)
    requires pdbs != [] && !Indexes(pdbs[|pdbs| - 1], ns, key)
    requires LastWriter(pdbs[..|pdbs| - 1], ns, key, i)
    ensures LastWriter(pdbs, ns, key, i)
  {
    var init := pdbs[..|pdbs| - 1];
    assert forall j :: 0 <= j < |init| ==> init[j] == pdbs[j];
  }

  /**
   * A present key names the last PDB in the input that wrote it (last write
   * wins).
   */
  lemma {:induction false} IndexNamesLastWriter(pdbs: seq<Pdb>, ns: string, key: string)
    requires key in Slot(IndexOf(pdbs), ns)
    ensures exists i :: LastWriter(pdbs, ns, key, i) && Slot(IndexOf(pdbs), ns)[key] == pdbs[i].name
  {
    var n := |pdbs| - 1;
    var init, p := pdbs[..n], pdbs[n];
    var before := IndexOf(init);
    assert IndexOf(pdbs) == Add(before, p);
    AddLookup(before, p, ns, key);
    if Indexes(p, ns, key) {
      assert LastWriter(pdbs, ns, key, n);
    } else {
      IndexNamesLastWriter(init, ns, key);
      var i :| LastWriter(init, ns, key, i) && Slot(before, ns)[key] == init[i].name;
      LastWriterExtends(pdbs, ns, key, i);
      assert pdbs[i] == init[i];
    }
  }

  /**
   * A namespace has a slot in the index exactly when it holds some well-formed
   * PDB; malformed PDBs never create one.
   */
  lemma {:induction false} NamespaceSlots(pdbs: seq<Pdb>, ns: string)
    ensures ns in IndexOf(pdbs) <==>
              exists i :: 0 <= i < |pdbs| && pdbs[i].namespace == ns && pdbs[i].matchLabels.Some?
  {
    if pdbs != [] {
      var n := |pdbs| - 1;
      var init := pdbs[..n];
      NamespaceSlots(init, ns);
      AddLookup(IndexOf(init), pdbs[n], ns, "");
      if ns in IndexOf(init) {
        var i :| 0 <= i < |init| && init[i].namespace == ns && init[i].matchLabels.Some?;
        assert pdbs[i] == init[i];
      }
      if exists i :: 0 <= i < |pdbs| && pdbs[i].namespace == ns && pdbs[i].matchLabels.Some? {
        var i :| 0 <= i < |pdbs| && pdbs[i].namespace == ns && pdbs[i].matchLabels.Some?;
        if i < n {
          assert init[i] == pdbs[i];
        }
      }
    }
  }

  /** The well-formed PDBs, in input order. */
  function WellFormed(pdbs: seq<Pdb>): seq<Pdb>
  {
    if pdbs == [] then []
    else
      var p := pdbs[|pdbs| - 1];
      WellFormed(pdbs[..|pdbs| - 1]) + if p.matchLabels.Some? then [p] else []
  }

  /**
   * Malformed PDBs do not disturb construction: the index of a batch is the
   * index of its well-formed PDBs alone.
   */
  lemma {:induction false} MalformedSkipped(pdbs: seq<Pdb>)
    ensures IndexOf(pdbs) == IndexOf(WellFormed(pdbs))
  {
    if pdbs != [] {
      var n := |pdbs| - 1;
      var p := pdbs[n];
      var rest := WellFormed(pdbs[..n]);
      MalformedSkipped(pdbs[..n]);
      if p.matchLabels.Some? {
        assert WellFormed(pdbs) == rest + [p];
        assert (rest + [p])[..|rest|] == rest;
        assert IndexOf(rest + [p]) == Add(IndexOf(rest), p);
      } else {
        assert WellFormed(pdbs) == rest;
      }
    }
  }

  /**
   * Adding a PDB to a built index: its own entry now names it, and every other
   * (namespace, key) entry of the index is as it was.
   */
  lemma LastWriteWins(pdbs: seq<Pdb>, p: Pdb, labels: seq<Label>)
    requires p.matchLabels == Some(labels)
    ensures var after := IndexOf(pdbs + [p]);
            p.namespace in after && after[p.namespace][SelectorKey(labels)] == p.name
    ensures forall ns, key :: (ns, key) != (p.namespace, SelectorKey(labels)) ==>
              (key in Slot(IndexOf(pdbs + [p]), ns) <==> key in Slot(IndexOf(pdbs), ns))
              && (key in Slot(IndexOf(pdbs), ns) ==>
                    Slot(IndexOf(pdbs + [p]), ns)[key] == Slot(IndexOf(pdbs), ns)[key])
  {
    assert (pdbs + [p])[..|pdbs|] == pdbs;
    forall ns, key
      ensures key in Slot(IndexOf(pdbs + [p]), ns) <==> key in Slot(IndexOf(pdbs), ns) || Indexes(p, ns, key)
      ensures key in Slot(IndexOf(pdbs + [p]), ns) ==>
                Slot(IndexOf(pdbs + [p]), ns)[key] ==
                  if Indexes(p, ns, key) then p.name else Slot(IndexOf(pdbs), ns)[key]
    {
      AddLookup(IndexOf(pdbs), p, ns, key);
    }
  }
}
