/**
 * Model of the trie walks of src/scripts/transform.py. A trie is a dict
 * parsed from JSON: every decision path is a chain of dicts keyed by split
 * descriptions, ending in a terminal dict, the one that holds the metric key.
 * Dict entries keep their insertion order, as Python dicts do.
 */
module Transform {
  import opened Wrappers

  /** A JSON value as the script sees it: a number or a dict. */
  datatype Value = Num(n: real) | Dict(items: seq<Entry>)
  datatype Entry = Entry(key: string, value: Value)

  /** `key in d` */
  predicate HasKey(items: seq<Entry>, key: string) {
    exists i | 0 <= i < |items| :: items[i].key == key
  }

  /** Python dict keys are distinct. */
  predicate DistinctKeys(items: seq<Entry>) {
    forall i, j | 0 <= i < j < |items| :: items[i].key != items[j].key
  }

  /** `d[key]`, or None where Python would raise KeyError. */
  function Lookup(items: seq<Entry>, key: string): (v: Option<Value>)
    ensures v.Some? <==> HasKey(items, key)
    ensures v.Some? ==> exists i | 0 <= i < |items| :: items[i] == Entry(key, v.value)
  {
    if items == [] then None
    else if items[0].key == key then Some(items[0].value)
    else
      var v := Lookup(items[1..], key);
      assert HasKey(items, key) ==> HasKey(items[1..], key) by {
        if HasKey(items, key) {
          var i :| 0 <= i < |items| && items[i].key == key;
          assert items[1..][i - 1].key == key;
        }
      }
      assert v.Some? ==> exists i | 0 <= i < |items| :: items[i] == Entry(key, v.value) by {
        if v.Some? {
          var i :| 0 <= i < |items[1..]| && items[1..][i] == Entry(key, v.value);
          assert items[i + 1] == Entry(key, v.value);
        }
      }
      v
  }

  /** With distinct keys, looking up an entry's own key finds that entry's value. */
  lemma LookupOwnKey(items: seq<Entry>, i: nat)
    requires DistinctKeys(items) && i < |items|
    ensures Lookup(items, items[i].key) == Some(items[i].value)
  {
    var v := Lookup(items, items[i].key);
    var j :| 0 <= j < |items| && items[j] == Entry(items[i].key, v.value);
    assert j == i;
  }

  /**
   * A well-formed trie: a dict with distinct keys that is either terminal
   * (it holds `metric`) or has a trie under every key. Anything else makes
   * the script raise TypeError when it tests `metric in` a number.
   */
  predicate IsTrie(v: Value, metric: string)
    decreases v
  {
    && v.Dict?
    && DistinctKeys(v.items)
    && (!HasKey(v.items, metric) ==> forall i | 0 <= i < |v.items| :: IsTrie(v.items[i].value, metric))
  }

  /** A trie whose terminals hold a number under `metric`, as `round` needs. */
  predicate IsScoredTrie(v: Value, metric: string) {
    IsTrie(v, metric) && TerminalsScored(v, metric)
  }

  predicate TerminalsScored(v: Value, metric: string)
    decreases v
  {
    v.Dict? ==>
      if HasKey(v.items, metric) then Lookup(v.items, metric).value.Num?
      else forall i | 0 <= i < |v.items| :: TerminalsScored(v.items[i].value, metric)
  }

  // ------------------------------------------------------------ sequences of sequences

  /** The concatenation of a sequence of sequences, as repeated `list.extend` builds it. */
  function Flatten<T>(s: seq<seq<T>>): seq<T>
    decreases |s|
  {
    if s == [] then [] else Flatten(s[..|s| - 1]) + s[|s| - 1]
  }

  lemma FlattenSnoc<T>(s: seq<seq<T>>, i: nat)
    requires i < |s|
    ensures Flatten(s[..i + 1]) == Flatten(s[..i]) + s[i]
  {
    assert s[..i + 1][..i] == s[..i];
  }

  predicate SameShape<A, B>(a: seq<seq<A>>, b: seq<seq<B>>) {
    |a| == |b| && forall i | 0 <= i < |a| :: |a[i]| == |b[i]|
  }

  /** Two sequences of sequences of the same shape flatten to the same length. */
  lemma {:induction false} FlattenSameLength<A, B>(a: seq<seq<A>>, b: seq<seq<B>>)
    requires SameShape(a, b)
    ensures |Flatten(a)| == |Flatten(b)|
    decreases |a|
  {
    if a != [] {
      var n := |a| - 1;
      assert SameShape(a[..n], b[..n]);
      FlattenSameLength(a[..n], b[..n]);
    }
  }

  /** Position k of both flattened sequences comes from the same inner position i, j. */
  ghost predicate SamePosition<A, B>(a: seq<seq<A>>, b: seq<seq<B>>, k: nat) {
    && k < |Flatten(a)| && k < |Flatten(b)|
    && exists i, j | 0 <= i < |a| && 0 <= j < |a[i]| && i < |b| && j < |b[i]| ::
         Flatten(a)[k] == a[i][j] && Flatten(b)[k] == b[i][j]
  }

  lemma {:induction false} FlattenIndexAt<A, B>(a: seq<seq<A>>, b: seq<seq<B>>, k: nat)
    requires SameShape(a, b) && k < |Flatten(a)|
    ensures SamePosition(a, b, k)
    decreases |a|
  {
    var n := |a| - 1;
    var a', b' := a[..n], b[..n];
    assert SameShape(a', b');
    FlattenSameLength(a, b);
    FlattenSameLength(a', b');
    if k < |Flatten(a')| {
      FlattenIndexAt(a', b', k);
      var i, j :| 0 <= i < |a'| && 0 <= j < |a'[i]| && i < |b'| && j < |b'[i]| && Flatten(a')[k] == a'[i][j] && Flatten(b')[k] == b'[i][j];
      assert Flatten(a)[k] == a[i][j] && Flatten(b)[k] == b[i][j];
    } else {
      var j := k - |Flatten(a')|;
      assert Flatten(a)[k] == a[n][j] && Flatten(b)[k] == b[n][j];
    }
  }

  /** Sequences of sequences equal element by element flatten to the same sequence. */
  lemma FlattenPointwise<T>(a: seq<seq<T>>, b: seq<seq<T>>)
    requires |a| == |b| && forall i | 0 <= i < |a| :: a[i] == b[i]
    ensures Flatten(a) == Flatten(b)
  {
    assert a == b;
  }

  // ------------------------------------------------------------ terminals and paths

  /** The key paths from the root to the terminal nodes, in depth-first key order. */
  function TerminalPaths(t: Value, metric: string): (paths: seq<seq<string>>)
    requires IsTrie(t, metric)
    decreases t
  {
    if HasKey(t.items, metric) then [[]]
    else Flatten(seq(|t.items|, i requires 0 <= i < |t.items| =>
                       Prefixed(t.items[i].key, TerminalPaths(t.items[i].value, metric))))
  }

  function Prefixed(key: string, paths: seq<seq<string>>): (r: seq<seq<string>>)
    ensures |r| == |paths| && forall j | 0 <= j < |paths| :: r[j] == [key] + paths[j]
  {
    seq(|paths|, j requires 0 <= j < |paths| => [key] + paths[j])
  }

  /** The value reached by following `path` from `v`, key by key. */
  function Walk(v: Value, path: seq<string>): Option<Value>
    decreases |path|
  {
    if path == [] then Some(v)
    else if v.Dict? && HasKey(v.items, path[0]) then Walk(Lookup(v.items, path[0]).value, path[1..])
    else None
  }

  /** get_flat_metrics as a value: the terminal dicts, in depth-first key order. */
  function FlatMetrics(t: Value, metric: string): seq<Value>
    requires IsTrie(t, metric)
    decreases t
  {
    if HasKey(t.items, metric) then [t]
    else Flatten(seq(|t.items|, i requires 0 <= i < |t.items| => FlatMetrics(t.items[i].value, metric)))
  }

  /** get_tree_depths as a value. */
  function TreeDepths(t: Value, treeDepth: int, metric: string): seq<int>
    requires IsTrie(t, metric)
    decreases t
  {
    if HasKey(t.items, metric) then [treeDepth]
    else Flatten(seq(|t.items|, i requires 0 <= i < |t.items| => TreeDepths(t.items[i].value, treeDepth + 1, metric)))
  }

  /**
   * The k-th flat metric is the terminal dict reached by the k-th terminal
   * path: get_flat_metrics lists every terminal once, in depth-first key order.
   */
  lemma {:induction false} FlatMetricsFollowPaths(t: Value, metric: string)
    requires IsTrie(t, metric)
    ensures |FlatMetrics(t, metric)| == |TerminalPaths(t, metric)|
    ensures forall k | 0 <= k < |FlatMetrics(t, metric)| ::
      && Walk(t, TerminalPaths(t, metric)[k]) == Some(FlatMetrics(t, metric)[k])
      && FlatMetrics(t, metric)[k].Dict? && HasKey(FlatMetrics(t, metric)[k].items, metric)
    decreases t
  {
    if HasKey(t.items, metric) {
      assert Walk(t, TerminalPaths(t, metric)[0]) == Some(t);
    } else {
      var items := t.items;
      var a := seq(|items|, i requires 0 <= i < |items| => FlatMetrics(items[i].value, metric));
      var b := seq(|items|, i requires 0 <= i < |items| => Prefixed(items[i].key, TerminalPaths(items[i].value, metric)));
      forall i | 0 <= i < |items| ensures |a[i]| == |b[i]| {
        FlatMetricsFollowPaths(items[i].value, metric);
      }
      FlattenSameLength(a, b);
      forall k | 0 <= k < |Flatten(a)|
        ensures Walk(t, Flatten(b)[k]) == Some(Flatten(a)[k]) && Flatten(a)[k].Dict? && HasKey(Flatten(a)[k].items, metric)
      {
        FlattenIndexAt(a, b, k);
        var i, j :| 0 <= i < |a| && 0 <= j < |a[i]| && i < |b| && j < |b[i]| && Flatten(a)[k] == a[i][j] && Flatten(b)[k] == b[i][j];
        FlatMetricsFollowPaths(items[i].value, metric);
        LookupOwnKey(items, i);
        var path := TerminalPaths(items[i].value, metric)[j];
        assert b[i][j] == [items[i].key] + path;
        assert ([items[i].key] + path)[1..] == path;
      }
    }
  }

  /**
   * get_tree_depths lists one depth per terminal, in the order of the
   * terminal paths, each the initial depth plus the path's length.
   */
  lemma {:induction false} TreeDepthsAreDistances(t: Value, treeDepth: int, metric: string)
    requires IsTrie(t, metric)
    ensures |TreeDepths(t, treeDepth, metric)| == |TerminalPaths(t, metric)|
    ensures forall k | 0 <= k < |TreeDepths(t, treeDepth, metric)| ::
      TreeDepths(t, treeDepth, metric)[k] == treeDepth + |TerminalPaths(t, metric)[k]|
    decreases t
  {
    if !HasKey(t.items, metric) {
      var items := t.items;
      var a := seq(|items|, i requires 0 <= i < |items| => TreeDepths(items[i].value, treeDepth + 1, metric));
      var b := seq(|items|, i requires 0 <= i < |items| => Prefixed(items[i].key, TerminalPaths(items[i].value, metric)));
      forall i | 0 <= i < |items| ensures |a[i]| == |b[i]| {
        TreeDepthsAreDistances(items[i].value, treeDepth + 1, metric);
      }
      FlattenSameLength(a, b);
      forall k | 0 <= k < |Flatten(a)| ensures Flatten(a)[k] == treeDepth + |Flatten(b)[k]| {
        FlattenIndexAt(a, b, k);
        var i, j :| 0 <= i < |a| && 0 <= j < |a[i]| && i < |b| && j < |b[i]| && Flatten(a)[k] == a[i][j] && Flatten(b)[k] == b[i][j];
        TreeDepthsAreDistances(items[i].value, treeDepth + 1, metric);
      }
    }
  }

  /** get_tree_depths and get_flat_metrics list the terminals in the same order: position k of each is about the same terminal. */
  lemma TreeDepthsMatchFlatMetrics(t: Value, treeDepth: int, metric: string)
    requires IsTrie(t, metric)
    ensures |TreeDepths(t, treeDepth, metric)| == |FlatMetrics(t, metric)| == |TerminalPaths(t, metric)|
    ensures forall k | 0 <= k < |FlatMetrics(t, metric)| ::
      && Walk(t, TerminalPaths(t, metric)[k]) == Some(FlatMetrics(t, metric)[k])
      && TreeDepths(t, treeDepth, metric)[k] == treeDepth + |TerminalPaths(t, metric)[k]|
  {
    FlatMetricsFollowPaths(t, metric);
    TreeDepthsAreDistances(t, treeDepth, metric);
  }

  // ------------------------------------------------------------ transform_trie

  const Objective := "objective"
  const Acc := "acc"

  /** A terminal dict holding a number under 'objective'. */
  predicate IsScoredTerminal(terminal: Value) {
    terminal.Dict? && Lookup(terminal.items, Objective).Some? && Lookup(terminal.items, Objective).value.Num?
  }

  /** The terminal transform_trie puts in place of a terminal dict. */
  function AccNode(terminal: Value, round: real -> real): Value
    requires IsScoredTerminal(terminal)
  {
    Dict([Entry(Acc, Num(round(Lookup(terminal.items, Objective).value.n)))])
  }

  /** No non-terminal dict of the trie has a key 'acc', which would make it look terminal after the transform. */
  predicate AccFree(t: Value)
    decreases t
  {
    t.Dict? && !HasKey(t.items, Objective) ==>
      && !HasKey(t.items, Acc)
      && forall i | 0 <= i < |t.items| :: AccFree(t.items[i].value)
  }

  /** transform_trie as a value; `round` stands for Python's `round(x, 5)`. */
  function Transformed(trie: Value, round: real -> real): (copy: Value)
    requires IsScoredTrie(trie, Objective)
    ensures AccFree(trie) ==> IsTrie(copy, Acc)
    decreases trie
  {
    if HasKey(trie.items, Objective) then AccNode(trie, round)
    else Dict(seq(|trie.items|, i requires 0 <= i < |trie.items| =>
                    Entry(trie.items[i].key, Transformed(trie.items[i].value, round))))
  }

  /** The copy has the same terminal paths: every key path to a terminal survives the transform. */
  lemma {:induction false} TransformedKeepsPaths(t: Value, round: real -> real)
    requires IsScoredTrie(t, Objective) && AccFree(t)
    ensures TerminalPaths(Transformed(t, round), Acc) == TerminalPaths(t, Objective)
    decreases t
  {
    if !HasKey(t.items, Objective) {
      var items, r := t.items, Transformed(t, round);
      var pr := seq(|items|, i requires 0 <= i < |items| => Prefixed(r.items[i].key, TerminalPaths(r.items[i].value, Acc)));
      var pt := seq(|items|, i requires 0 <= i < |items| => Prefixed(items[i].key, TerminalPaths(items[i].value, Objective)));
      forall i | 0 <= i < |items| ensures pr[i] == pt[i] {
        TransformedKeepsPaths(items[i].value, round);
      }
      FlattenPointwise(pr, pt);
    }
  }

  /**
   * `a` (terminal where it holds `ma`) and `b` (terminal where it holds `mb`)
   * have the same keys in the same order at every non-terminal level, and are
   * terminal at the same places.
   */
  predicate SameKeys(a: Value, b: Value, ma: string, mb: string)
    decreases a
  {
    && a.Dict? && b.Dict?
    && (HasKey(a.items, ma) <==> HasKey(b.items, mb))
    && (!HasKey(a.items, ma) ==>
          && |a.items| == |b.items|
          && forall i | 0 <= i < |a.items| ::
               a.items[i].key == b.items[i].key && SameKeys(a.items[i].value, b.items[i].value, ma, mb))
  }

  /** transform_trie keeps every key and the nesting, sub-dicts without terminals included. */
  lemma {:induction false} TransformedKeepsShape(t: Value, round: real -> real)
    requires IsScoredTrie(t, Objective) && AccFree(t)
    ensures SameKeys(t, Transformed(t, round), Objective, Acc)
    decreases t
  {
    var r := Transformed(t, round);
    if HasKey(t.items, Objective) {
      assert r.items[0].key == Acc;
    } else {
      forall i | 0 <= i < |t.items| ensures SameKeys(t.items[i].value, r.items[i].value, Objective, Acc) {
        TransformedKeepsShape(t.items[i].value, round);
      }
      assert !HasKey(r.items, Acc) by {
        forall i | 0 <= i < |r.items| ensures r.items[i].key != Acc {
          assert r.items[i].key == t.items[i].key;
        }
      }
    }
  }

  /** Each terminal of the copy, in order, is {'acc': round(objective)} of the original terminal. */
  lemma {:induction false} TransformedRoundsTerminals(t: Value, round: real -> real)
    requires IsScoredTrie(t, Objective) && AccFree(t)
    ensures |FlatMetrics(Transformed(t, round), Acc)| == |FlatMetrics(t, Objective)|
    ensures forall k | 0 <= k < |FlatMetrics(t, Objective)| ::
      && IsScoredTerminal(FlatMetrics(t, Objective)[k])
      && FlatMetrics(Transformed(t, round), Acc)[k] == AccNode(FlatMetrics(t, Objective)[k], round)
    decreases t
  {
    if !HasKey(t.items, Objective) {
      var items, r := t.items, Transformed(t, round);
      var fr := seq(|items|, i requires 0 <= i < |items| => FlatMetrics(r.items[i].value, Acc));
      var ft := seq(|items|, i requires 0 <= i < |items| => FlatMetrics(items[i].value, Objective));
      forall i | 0 <= i < |items| ensures |fr[i]| == |ft[i]| {
        TransformedRoundsTerminals(items[i].value, round);
      }
      FlattenSameLength(fr, ft);
      forall k | 0 <= k < |Flatten(ft)|
        ensures IsScoredTerminal(Flatten(ft)[k]) && Flatten(fr)[k] == AccNode(Flatten(ft)[k], round)
      {
        FlattenIndexAt(fr, ft, k);
        var i, j :| 0 <= i < |fr| && 0 <= j < |fr[i]| && i < |ft| && j < |ft[i]| && Flatten(fr)[k] == fr[i][j] && Flatten(ft)[k] == ft[i][j];
        TransformedRoundsTerminals(items[i].value, round);
      }
    }
  }

  /** The transform changes no depth. */
  lemma TransformedKeepsDepths(t: Value, treeDepth: int, round: real -> real)
    requires IsScoredTrie(t, Objective) && AccFree(t)
    ensures TreeDepths(Transformed(t, round), treeDepth, Acc) == TreeDepths(t, treeDepth, Objective)
  {
    var copy := Transformed(t, round);
    TransformedKeepsPaths(t, round);
    TreeDepthsAreDistances(copy, treeDepth, Acc);
    TreeDepthsAreDistances(t, treeDepth, Objective);
    var d, d0 := TreeDepths(copy, treeDepth, Acc), TreeDepths(t, treeDepth, Objective);
    assert |d| == |d0|;
    forall k | 0 <= k < |d| ensures d[k] == d0[k] {
      assert TerminalPaths(copy, Acc)[k] == TerminalPaths(t, Objective)[k];
    }
  }

  // ------------------------------------------------------------ the script's loops

  /** `d[key] = value`: overwrite the entry with that key, or append a new one. */
  function SetItem(items: seq<Entry>, key: string, value: Value): seq<Entry>
    decreases |items|
  {
    if items == [] then [Entry(key, value)]
    else if items[0].key == key then [Entry(key, value)] + items[1..]
    else [items[0]] + SetItem(items[1..], key, value)
  }

  /** Storing under a new key appends. */
  lemma {:induction false} SetItemNewKey(items: seq<Entry>, key: string, value: Value)
    requires !HasKey(items, key)
    ensures SetItem(items, key, value) == items + [Entry(key, value)]
    decreases |items|
  {
    if items != [] {
      assert !HasKey(items[1..], key);
      SetItemNewKey(items[1..], key, value);
      assert [items[0]] + (items[1..] + [Entry(key, value)]) == items + [Entry(key, value)];
    }
  }

  /** transform_trie: a deep copy, built key by key into a fresh dict. */
  method TransformTrie(trie: Value, round: real -> real) returns (result: Value)
    requires IsScoredTrie(trie, Objective)
    ensures result == Transformed(trie, round)
    decreases trie
  {
    if HasKey(trie.items, Objective) {
      // a terminal: the copy keeps only the rounded objective, under 'acc'
      return Dict([Entry(Acc, Num(round(Lookup(trie.items, Objective).value.n)))]);
    }
    var items := trie.items;
    ghost var copy := seq(|items|, i requires 0 <= i < |items| => Entry(items[i].key, Transformed(items[i].value, round)));
    var subDict: seq<Entry> := [];
    for i := 0 to |items|
      invariant subDict == copy[..i]
    {
      var child := TransformTrie(items[i].value, round);
      SetItemNewKey(subDict, items[i].key, child);
      subDict := SetItem(subDict, items[i].key, child);
      assert copy[..i + 1] == copy[..i] + [copy[i]];
    }
    assert copy[..|items|] == copy;
    result := Dict(subDict);
  }

  /** The list the caller passes to get_flat_metrics, which it extends in place. */
  class MetricList {
    var metrics: seq<Value>

    constructor(initial: seq<Value>)
      ensures metrics == initial
    {
      metrics := initial;
    }
  }

  /** get_flat_metrics: appends the terminal dicts to `list`, after what it already held. */
  method GetFlatMetrics(trie: Value, list: MetricList, metricName: string)
    requires IsTrie(trie, metricName)
    modifies list
    ensures list.metrics == old(list.metrics) + FlatMetrics(trie, metricName)
    decreases trie
  {
    if HasKey(trie.items, metricName) {
      list.metrics := list.metrics + [trie];
      return;
    }
    var items := trie.items;
    ghost var parts := seq(|items|, i requires 0 <= i < |items| => FlatMetrics(items[i].value, metricName));
    for i := 0 to |items|
      invariant list.metrics == old(list.metrics) + Flatten(parts[..i])
    {
      GetFlatMetrics(items[i].value, list, metricName);
      FlattenSnoc(parts, i);
    }
    assert parts[..|items|] == parts;
  }

  /** get_tree_depths: the depth of every terminal, extended child by child. */
  method GetTreeDepths(trie: Value, treeDepth: int, metricName: string) returns (treeDepths: seq<int>)
    requires IsTrie(trie, metricName)
    ensures treeDepths == TreeDepths(trie, treeDepth, metricName)
    decreases trie
  {
    if HasKey(trie.items, metricName) {
      return [treeDepth];
    }
    var items := trie.items;
    ghost var parts := seq(|items|, i requires 0 <= i < |items| => TreeDepths(items[i].value, treeDepth + 1, metricName));
    treeDepths := [];
    for i := 0 to |items|
      invariant treeDepths == Flatten(parts[..i])
    {
      var sub := GetTreeDepths(items[i].value, treeDepth + 1, metricName);
      treeDepths := treeDepths + sub;
      FlattenSnoc(parts, i);
    }
    assert parts[..|items|] == parts;
  }
}
