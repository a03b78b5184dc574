/**
 * The canonical selector key of a label mapping (main.py:121 and main.py:183-188):
 * the mapping's `(key, value)` items are sorted and rendered as `key=value`,
 * joined with commas.
 *
 * A label mapping is a Python dict; it is modelled here by its items in the
 * dict's iteration (insertion) order, so that "the key does not depend on the
 * order in which the labels were inserted" is a statement about different
 * sequences and not a triviality.
 */
module Selector {

  /** One `(key, value)` item of a label mapping. */
  datatype Label = Label(key: string, value: string)

  // ---------------------------------------------------------------------------
  // Python's ordering of str and of (str, str) tuples
  // ---------------------------------------------------------------------------

  /** Python's `a < b` on str: lexicographic by code point, a proper prefix first. */
  predicate StrLess(a: string, b: string)
    decreases |a|
  {
    if a == [] then b != []
    else if b == [] then false
    else if a[0] == b[0] then StrLess(a[1..], b[1..])
    else a[0] < b[0]
  }

  lemma {:induction false} StrLessIrreflexive(a: string)
    ensures !StrLess(a, a)
    decreases |a|
  {
    if a != [] {
      StrLessIrreflexive(a[1..]);
    }
  }

  lemma {:induction false} StrLessAsymmetric(a: string, b: string)
    requires StrLess(a, b)
    ensures !StrLess(b, a)
    decreases |a|
  {
    if a != [] && a[0] == b[0] {
      StrLessAsymmetric(a[1..], b[1..]);
    }
  }

  lemma {:induction false} StrLessTransitive(a: string, b: string, c: string)
    requires StrLess(a, b) && StrLess(b, c)
    ensures StrLess(a, c)
    decreases |a|
  {
    if a != [] && a[0] == b[0] && b[0] == c[0] {
      StrLessTransitive(a[1..], b[1..], c[1..]);
    }
  }

  lemma {:induction false} StrLessTotal(a: string, b: string)
    ensures a == b || StrLess(a, b) || StrLess(b, a)
    decreases |a|
  {
    if a != [] && b != [] && a[0] == b[0] {
      StrLessTotal(a[1..], b[1..]);
      if a[1..] == b[1..] {
        assert a == [a[0]] + a[1..] && b == [b[0]] + b[1..];
      }
    }
  }

  /** Python's `<` on `(key, value)` tuples: by key, then by value. */
  predicate LabelLess(x: Label, y: Label)
  {
    StrLess(x.key, y.key) || (x.key == y.key && StrLess(x.value, y.value))
  }

  /** The non-strict order `sorted` puts items in. */
  predicate LabelLe(x: Label, y: Label)
  {
    x == y || LabelLess(x, y)
  }

  lemma LabelLeTotal(x: Label, y: Label)
    ensures LabelLe(x, y) || LabelLe(y, x)
  {
    StrLessTotal(x.key, y.key);
    StrLessTotal(x.value, y.value);
  }

  lemma LabelLeAntisymmetric(x: Label, y: Label)
    requires LabelLe(x, y) && LabelLe(y, x)
    ensures x == y
  {
    if x != y {
      if StrLess(x.key, y.key) {
        StrLessAsymmetric(x.key, y.key);
        StrLessIrreflexive(x.key);
      } else {
        StrLessIrreflexive(y.key);
        StrLessAsymmetric(x.value, y.value);
      }
    }
  }

  lemma LabelLeTransitive(x: Label, y: Label, z: Label)
    requires LabelLe(x, y) && LabelLe(y, z)
    ensures LabelLe(x, z)
  {
    if x != y && y != z {
      if StrLess(x.key, y.key) && StrLess(y.key, z.key) {
        StrLessTransitive(x.key, y.key, z.key);
      } else if x.key == y.key && y.key == z.key {
        StrLessTransitive(x.value, y.value, z.value);
      }
    }
  }

  // ---------------------------------------------------------------------------
  // Sorting the items of a label mapping
  // ---------------------------------------------------------------------------

  predicate Sorted(s: seq<Label>)
  {
    forall i, j :: 0 <= i < j < |s| ==> LabelLe(s[i], s[j])
  }

  /** Inserts `x` before the first element it is not above. */
  function Insert(x: Label, s: seq<Label>): (r: seq<Label>)
    ensures multiset(r) == multiset(s) + multiset{x}
  {
    if s == [] then [x]
    else if LabelLe(x, s[0]) then [x] + s
    else
      assert s == [s[0]] + s[1..];
      [s[0]] + Insert(x, s[1..])
  }

  lemma {:induction false} InsertSorted(x: Label, s: seq<Label>)
    requires Sorted(s)
    ensures Sorted(Insert(x, s))
  {
    if s == [] {
    } else if LabelLe(x, s[0]) {
      forall j | 0 <= j < |s|
        ensures LabelLe(x, s[j])
      {
        if j > 0 {
          LabelLeTransitive(x, s[0], s[j]);
        }
      }
    } else {
      LabelLeTotal(x, s[0]);
      var tail := Insert(x, s[1..]);
      InsertSorted(x, s[1..]);
      forall k | 0 <= k < |tail|
        ensures LabelLe(s[0], tail[k])
      {
        assert tail[k] in multiset(tail);
        if tail[k] != x {
          assert tail[k] in multiset(s[1..]);
          var j :| 0 <= j < |s[1..]| && s[1..][j] == tail[k];
          assert s[j + 1] == tail[k];
        }
      }
      var r := Insert(x, s);
      assert r == [s[0]] + tail;
      forall i, j | 0 <= i < j < |r|
        ensures LabelLe(r[i], r[j])
      {
        if i > 0 {
          assert r[i] == tail[i - 1] && r[j] == tail[j - 1];
        }
      }
    }
  }

  /**
   * Python's `sorted` on label items: an insertion sort. Its result holds
   * exactly the items it was given (and, by `SortSorted`, in order).
   */
  function Sort(s: seq<Label>): (r: seq<Label>)
    ensures multiset(r) == multiset(s)
  {
    if s == [] then []
    else
      assert s == [s[0]] + s[1..];
      Insert(s[0], Sort(s[1..]))
  }

  lemma {:induction false} SortSorted(s: seq<Label>)
    ensures Sorted(Sort(s))
  {
    if s != [] {
      SortSorted(s[1..]);
      InsertSorted(s[0], Sort(s[1..]));
    }
  }

  /** The head of a sorted sequence is its least item. */
  lemma SortedHeadLeast(s: seq<Label>, x: Label)
    requires Sorted(s) && x in multiset(s)
    ensures LabelLe(s[0], x)
  {
    var j :| 0 <= j < |s| && s[j] == x;
  }

  /** Sequences with equal heads and equal tails are equal. */
  lemma HeadTailEqual(a: seq<Label>, b: seq<Label>)
    requires a != [] && b != [] && a[0] == b[0] && a[1..] == b[1..]
    ensures a == b
  {
    assert a == [a[0]] + a[1..] && b == [b[0]] + b[1..];
  }

  /** Removing the head of a sequence removes one copy of it from the multiset. */
  lemma TailMultiset(s: seq<Label>)
    requires s != []
    ensures s[0] in multiset(s)
    ensures multiset(s[1..]) == multiset(s) - multiset{s[0]}
  {
    assert s == [s[0]] + s[1..];
  }

  lemma SortedTail(s: seq<Label>)
    requires Sorted(s) && s != []
    ensures Sorted(s[1..])
  {
    assert forall i :: 0 <= i < |s[1..]| ==> s[1..][i] == s[i + 1];
  }

  /** An ordering of a multiset of labels is unique: there is one canonical form. */
  lemma {:induction false} SortedUnique(a: seq<Label>, b: seq<Label>)
    requires Sorted(a) && Sorted(b)
    requires multiset(a) == multiset(b)
    ensures a == b
    decreases |a|
  {
    assert |a| == |multiset(a)| && |b| == |multiset(b)|;
    if a != [] {
      TailMultiset(a);
      TailMultiset(b);
      SortedHeadLeast(b, a[0]);
      SortedHeadLeast(a, b[0]);
      LabelLeAntisymmetric(a[0], b[0]);
      SortedTail(a);
      SortedTail(b);
      SortedUnique(a[1..], b[1..]);
      HeadTailEqual(a, b);
    }
  }

  // ---------------------------------------------------------------------------
  // The key: sort the items, render each as key=value, join with commas
  // ---------------------------------------------------------------------------

  /** `f"{k}={v}"` */
  function Render(l: Label): (r: string)
    ensures '=' in r
  {
    assert (l.key + "=" + l.value)[|l.key|] == '=';
    l.key + "=" + l.value
  }

  /** The rendered items joined with commas: empty for no items, otherwise never empty. */
  function JoinItems(s: seq<Label>): (r: string)
    ensures r == "" <==> s == []
  {
    if s == [] then ""
    else if |s| == 1 then Render(s[0])
    else Render(s[0]) + "," + JoinItems(s[1..])
  }

  /** The canonical selector key of a label mapping given by its items. */
  function SelectorKey(labels: seq<Label>): string
  {
    JoinItems(Sort(labels))
  }

  /** Only the empty mapping has the empty key. */
  lemma EmptyKey(labels: seq<Label>)
    ensures SelectorKey(labels) == "" <==> labels == []
  {
    assert |multiset(Sort(labels))| == |labels|;
  }

  /**
   * The key does not depend on the order of the items: any two orderings of the
   * same items (Python dicts with the same items, inserted in different orders)
   * give the same key.
   */
  lemma KeyIgnoresOrder(a: seq<Label>, b: seq<Label>)
    requires multiset(a) == multiset(b)
    ensures SelectorKey(a) == SelectorKey(b)
  {
    SortSorted(a);
    SortSorted(b);
    SortedUnique(Sort(a), Sort(b));
  }

  // ---------------------------------------------------------------------------
  // The mapping a sequence of items stands for
  // ---------------------------------------------------------------------------

  /** The items of a dict: no key occurs twice. */
  predicate IsDict(s: seq<Label>)
  {
    forall i, j :: 0 <= i < j < |s| ==> s[i].key != s[j].key
  }

  /** The key/value mapping the items describe. */
  function ToMap(s: seq<Label>): map<string, string>
  {
    if s == [] then map[] else map[s[0].key := s[0].value] + ToMap(s[1..])
  }

  lemma {:induction false} InToMap(s: seq<Label>, x: Label)
    requires IsDict(s)
    ensures x in s <==> x.key in ToMap(s) && ToMap(s)[x.key] == x.value
  {
    if s != [] {
      assert IsDict(s[1..]) by {
        forall i, j | 0 <= i < j < |s[1..]|
          ensures s[1..][i].key != s[1..][j].key
        {
          assert s[1..][i] == s[i + 1] && s[1..][j] == s[j + 1];
        }
      }
      InToMap(s[1..], x);
      assert s == [s[0]] + s[1..];
      KeysOfToMap(s[1..], s[0].key);
      forall i | 0 <= i < |s[1..]|
        ensures s[1..][i].key != s[0].key
      {
        assert s[1..][i] == s[i + 1];
      }
    }
  }

  lemma {:induction false} KeysOfToMap(s: seq<Label>, k: string)
    ensures k in ToMap(s) <==> exists i :: 0 <= i < |s| && s[i].key == k
  {
    if s != [] {
      KeysOfToMap(s[1..], k);
      if k in ToMap(s[1..]) {
        var i :| 0 <= i < |s[1..]| && s[1..][i].key == k;
        assert s[i + 1].key == k;
      }
      if exists i :: 0 <= i < |s| && s[i].key == k {
        var i :| 0 <= i < |s| && s[i].key == k;
        if i > 0 {
          assert s[1..][i - 1].key == k;
        }
      }
    }
  }

  /** In the items of a dict every item occurs at most once. */
  lemma {:induction false} DictCount(s: seq<Label>, x: Label)
    requires IsDict(s)
    ensures multiset(s)[x] == if x in s then 1 else 0
  {
    if s != [] {
      assert s == [s[0]] + s[1..];
      assert IsDict(s[1..]) by {
        forall i, j | 0 <= i < j < |s[1..]|
          ensures s[1..][i].key != s[1..][j].key
        {
          assert s[1..][i] == s[i + 1] && s[1..][j] == s[j + 1];
        }
      }
      DictCount(s[1..], x);
      forall j | 0 <= j < |s[1..]|
        ensures s[1..][j] != s[0]
      {
        assert s[1..][j] == s[j + 1];
      }
    }
  }

  /** Dicts with equal contents hold the same items, whatever the insertion order. */
  lemma SameMappingSameItems(a: seq<Label>, b: seq<Label>)
    requires IsDict(a) && IsDict(b)
    requires ToMap(a) == ToMap(b)
    ensures multiset(a) == multiset(b)
  {
    forall x
      ensures multiset(a)[x] == multiset(b)[x]
    {
      InToMap(a, x);
      InToMap(b, x);
      DictCount(a, x);
      DictCount(b, x);
    }
  }

  /**
   * Equal label mappings give equal selector keys: the key is a function of the
   * mapping's contents, not of its insertion order.
   */
  lemma EqualMappingsEqualKeys(a: seq<Label>, b: seq<Label>)
    requires IsDict(a) && IsDict(b)
    requires ToMap(a) == ToMap(b)
    ensures SelectorKey(a) == SelectorKey(b)
  {
    SameMappingSameItems(a, b);
    KeyIgnoresOrder(a, b);
  }

  // ---------------------------------------------------------------------------
  // The converse, for labels free of the separators
  // ---------------------------------------------------------------------------

  /**
   * An item the rendering cannot confuse: no ',' anywhere and no '=' in the key.
   * The source does not check this; Kubernetes label syntax guarantees it.
   */
  predicate Clean(l: Label)
  {
    ',' !in l.key && '=' !in l.key && ',' !in l.value
  }

  predicate AllClean(s: seq<Label>)
  {
    forall x :: x in s ==> Clean(x)
  }

  /** Position of the first `c` in `s`, or `|s|` when there is none. */
  function FirstIndex(s: string, c: char): (i: nat)
    ensures i <= |s|
    ensures i < |s| ==> s[i] == c
  {
    if s == [] then 0
    else if s[0] == c then 0
    else 1 + FirstIndex(s[1..], c)
  }

  lemma {:induction false} FirstIndexAt(a: string, c: char, rest: string)
    requires c !in a
    ensures FirstIndex(a + [c] + rest, c) == |a|
    decreases |a|
  {
    var s := a + [c] + rest;
    if a != [] {
      assert s[0] == a[0];
      assert s[1..] == a[1..] + [c] + rest;
      FirstIndexAt(a[1..], c, rest);
    }
  }

  lemma {:induction false} FirstIndexAbsent(s: string, c: char)
    requires c !in s
    ensures FirstIndex(s, c) == |s|
    decreases |s|
  {
    if s != [] {
      FirstIndexAbsent(s[1..], c);
    }
  }

  /** Python's `s.split(',')`. */
  function Pieces(t: string): (r: seq<string>)
    ensures |r| >= 1
    decreases |t|
  {
    var i := FirstIndex(t, ',');
    if i == |t| then [t] else [t[..i]] + Pieces(t[i + 1..])
  }

  /** Reads `key=value` back, splitting at the first '='. */
  function ParseLabel(p: string): Label
  {
    var i := FirstIndex(p, '=');
    Label(p[..i], if i < |p| then p[i + 1..] else "")
  }

  function ParseAll(ps: seq<string>): (r: seq<Label>)
    ensures |r| == |ps|
  {
    if ps == [] then [] else [ParseLabel(ps[0])] + ParseAll(ps[1..])
  }

  /** Reads a selector key back into the items it was rendered from. */
  function ParseKey(t: string): seq<Label>
  {
    if t == "" then [] else ParseAll(Pieces(t))
  }

  lemma ParseRendered(l: Label)
    requires Clean(l)
    ensures ParseLabel(Render(l)) == l
    ensures ',' !in Render(l)
  {
    FirstIndexAt(l.key, '=', l.value);
    var r := Render(l);
    assert r[..|l.key|] == l.key;
    assert r[|l.key| + 1..] == l.value;
  }

  /** Joining clean items and reading the result back gives the items again. */
  lemma {:induction false} ParseJoin(s: seq<Label>)
    requires AllClean(s)
    ensures ParseKey(JoinItems(s)) == s
  {
    if |s| == 1 {
      ParseSingle(s[0]);
    } else if |s| > 1 {
      assert AllClean(s[1..]);
      ParseJoin(s[1..]);
      ParseCons(s);
    }
  }

  /** A single clean item is read back from its rendering. */
  lemma ParseSingle(l: Label)
    requires Clean(l)
    ensures ParseKey(JoinItems([l])) == [l]
  {
    ParseRendered(l);
    FirstIndexAbsent(Render(l), ',');
    assert Pieces(Render(l)) == [Render(l)];
  }

  /** Reading back `head,rest` reads `head` and then `rest`. */
  lemma ParseCons(s: seq<Label>)
    requires |s| > 1 && Clean(s[0])
    requires ParseKey(JoinItems(s[1..])) == s[1..]
    ensures ParseKey(JoinItems(s)) == s
  {
    var head := Render(s[0]);
    var rest := JoinItems(s[1..]);
    ParseRendered(s[0]);
    assert ParseKey(rest) == ParseAll(Pieces(rest));
    PiecesSplit(head, rest);
    var t := head + "," + rest;
    assert JoinItems(s) == t;
    assert ParseKey(t) == ParseAll([head] + Pieces(rest));
    assert ([head] + Pieces(rest))[1..] == Pieces(rest);
    assert s == [s[0]] + s[1..];
  }

  /** Splitting at the first ',' of `head + "," + rest` when `head` has none. */
  lemma PiecesSplit(head: string, rest: string)
    requires ',' !in head
    ensures Pieces(head + "," + rest) == [head] + Pieces(rest)
  {
    var t := head + "," + rest;
    FirstIndexAt(head, ',', rest);
    assert t[..|head|] == head;
    assert t[|head| + 1..] == rest;
  }

  lemma SortKeepsClean(s: seq<Label>)
    requires AllClean(s)
    ensures AllClean(Sort(s))
  {
    forall x | x in Sort(s)
      ensures Clean(x)
    {
      assert x in multiset(Sort(s));
    }
  }

  /**
   * For clean labels the converse holds as well: equal selector keys come only
   * from equal label mappings.
   */
  lemma EqualKeysEqualMappings(a: seq<Label>, b: seq<Label>)
    requires IsDict(a) && IsDict(b)
    requires AllClean(a) && AllClean(b)
    requires SelectorKey(a) == SelectorKey(b)
    ensures ToMap(a) == ToMap(b)
  {
    SortKeepsClean(a);
    SortKeepsClean(b);
    ParseJoin(Sort(a));
    ParseJoin(Sort(b));
    assert multiset(a) == multiset(b);
    forall k | k in ToMap(a)
      ensures k in ToMap(b) && ToMap(b)[k] == ToMap(a)[k]
    {
      var x := Label(k, ToMap(a)[k]);
      InToMap(a, x);
      assert x in multiset(b);
      InToMap(b, x);
    }
    forall k | k in ToMap(b)
      ensures k in ToMap(a)
    {
      var x := Label(k, ToMap(b)[k]);
      InToMap(b, x);
      assert x in multiset(a);
      InToMap(a, x);
    }
  }

  /**
   * Without that condition the key is not injective: the mapping
   * `{"a": "b,c=d"}` and the mapping `{"a": "b", "c": "d"}` share the key
   * `a=b,c=d`.
   */
  lemma KeyCollision()
    ensures var one := [Label("a", "b,c=d")];
            var two := [Label("a", "b"), Label("c", "d")];
            IsDict(one) && IsDict(two) && ToMap(one) != ToMap(two)
            && SelectorKey(one) == SelectorKey(two) == "a=b,c=d"
  {
    var one := [Label("a", "b,c=d")];
    var two := [Label("a", "b"), Label("c", "d")];
    assert "c" in ToMap(two) && "c" !in ToMap(one);
    KeyOfOneItem();
    KeyOfTwoItems();
  }

  lemma KeyOfOneItem()
    ensures SelectorKey([Label("a", "b,c=d")]) == "a=b,c=d"
  {
    assert Sort([Label("a", "b,c=d")]) == [Label("a", "b,c=d")];
  }

  lemma KeyOfTwoItems()
    ensures SelectorKey([Label("a", "b"), Label("c", "d")]) == "a=b,c=d"
  {
    var two := [Label("a", "b"), Label("c", "d")];
    assert Sort(two[1..]) == [Label("c", "d")];
    assert StrLess("a", "c");
    assert Sort(two) == Insert(Label("a", "b"), [Label("c", "d")]) == two;
    assert JoinItems(two) == Render(Label("a", "b")) + "," + JoinItems([Label("c", "d")]);
  }
}
