/**
 * Model of get_hierarchy_dict of src/scripts/transform.py: the strict
 * hierarchy the sunburst chart reads. Every key of the trie is a split
 * description such as 'age -1' or 'age income -2 -1'; its tokens become
 * direction codes, and its non-value tokens the feature of the child node.
 * Siblings with the same feature are merged by concatenating their children.
 */
module Hierarchy {
  import opened Wrappers
  import opened Strings
  import opened Transform

  /** A node of the hierarchy dict: a terminal {'f': '_', 'd': direction, 's': score}, or {'f': feature, 'c': children}. */
  datatype HNode = HLeaf(d: seq<int>, s: real) | HBranch(f: string, c: seq<HNode>)

  /** The 'f' entry of a node. */
  function Feature(n: HNode): string {
    if n.HLeaf? then "_" else n.f
  }

  /** What the script returns, or the KeyError it raises when a merge meets a terminal. */
  datatype Result<T> = Ok(value: T) | KeyError

  // ------------------------------------------------------------ key tokens

  /** The tokens of value_map: '-2' encodes 1 and '-1' encodes -1. */
  predicate IsValueToken(token: string) {
    token == "-2" || token == "-1"
  }

  /** The direction entry of one token: its value_map entry, or 0 for a token naming a feature. */
  function ValueCode(token: string): int {
    if token == "-2" then 1 else if token == "-1" then -1 else 0
  }

  /** The tokens of a key that name features, in order. */
  function FeatureTokens(tokens: seq<string>): seq<string>
    decreases |tokens|
  {
    if tokens == [] then []
    else
      var last := tokens[|tokens| - 1];
      FeatureTokens(tokens[..|tokens| - 1]) + (if IsValueToken(last) then [] else [last])
  }

  /** The direction entries a key adds, one per space-separated token. */
  function KeyDirections(key: string): seq<int> {
    var tokens := Split(key, ' ');
    seq(|tokens|, i requires 0 <= i < |tokens| => ValueCode(tokens[i]))
  }

  /** The feature of the child under a key: its feature tokens joined by single spaces. */
  function KeyFeature(key: string): string {
    Join(" ", FeatureTokens(Split(key, ' ')))
  }

  /** Every feature token is a token of the key and not a value token. */
  lemma {:induction false} FeatureTokensAreTokens(tokens: seq<string>)
    ensures forall i | 0 <= i < |FeatureTokens(tokens)| ::
      FeatureTokens(tokens)[i] in tokens && !IsValueToken(FeatureTokens(tokens)[i])
    decreases |tokens|
  {
    if tokens != [] {
      var prefix := tokens[..|tokens| - 1];
      FeatureTokensAreTokens(prefix);
      assert prefix + [tokens[|tokens| - 1]] == tokens;
      forall i | 0 <= i < |FeatureTokens(prefix)| ensures FeatureTokens(prefix)[i] in tokens {
        assert FeatureTokens(prefix)[i] in prefix;
      }
    }
  }

  /** Without value tokens every token names a feature. */
  lemma {:induction false} FeatureTokensWithoutValues(tokens: seq<string>)
    requires forall i | 0 <= i < |tokens| :: !IsValueToken(tokens[i])
    ensures FeatureTokens(tokens) == tokens
    decreases |tokens|
  {
    if tokens != [] {
      FeatureTokensWithoutValues(tokens[..|tokens| - 1]);
    }
  }

  /** A key's direction entries: one per token, 1 for '-2', -1 for '-1' and 0 for every other token. */
  lemma KeyDirectionsShape(key: string)
    ensures |KeyDirections(key)| == |Split(key, ' ')|
    ensures forall i | 0 <= i < |KeyDirections(key)| ::
      && (Split(key, ' ')[i] == "-2" ==> KeyDirections(key)[i] == 1)
      && (Split(key, ' ')[i] == "-1" ==> KeyDirections(key)[i] == -1)
      && (!IsValueToken(Split(key, ' ')[i]) ==> KeyDirections(key)[i] == 0)
  {
  }

  /**
   * The feature splits back into the key's feature tokens: it is those tokens
   * joined by single spaces, and none of them is a value token.
   */
  lemma KeyFeatureTokens(key: string)
    requires |FeatureTokens(Split(key, ' '))| >= 1
    ensures Split(KeyFeature(key), ' ') == FeatureTokens(Split(key, ' '))
    ensures forall i | 0 <= i < |Split(KeyFeature(key), ' ')| :: !IsValueToken(Split(KeyFeature(key), ' ')[i])
  {
    var tokens := Split(key, ' ');
    FeatureTokensAreTokens(tokens);
    forall i | 0 <= i < |FeatureTokens(tokens)| ensures ' ' !in FeatureTokens(tokens)[i] {
      var j :| 0 <= j < |tokens| && tokens[j] == FeatureTokens(tokens)[i];
    }
    SplitJoin(FeatureTokens(tokens), ' ');
  }

  /** A key without value tokens is its own feature. */
  lemma KeyWithoutValuesIsFeature(key: string)
    requires forall i | 0 <= i < |Split(key, ' ')| :: !IsValueToken(Split(key, ' ')[i])
    ensures KeyFeature(key) == key
  {
    FeatureTokensWithoutValues(Split(key, ' '));
    JoinSplit(key, ' ');
  }

  /** The tokens of a key of a two-feature split. */
  lemma TwoFeatureKeyTokens()
    ensures Split("0 1 -2 -1", ' ') == ["0", "1", "-2", "-1"]
  {
    var tokens := ["0", "1", "-2", "-1"];
    assert tokens[1..] == ["1", "-2", "-1"] && tokens[1..][1..] == ["-2", "-1"] && tokens[1..][1..][1..] == ["-1"];
    assert Join(" ", ["-2", "-1"]) == "-2 -1";
    assert Join(" ", ["1", "-2", "-1"]) == "1 -2 -1";
    assert Join(" ", tokens) == "0 1 -2 -1";
    SplitJoin(tokens, ' ');
  }

  /** A key of a two-feature split: each feature token adds 0, each value token its code, and the features stay joined. */
  lemma TwoFeatureKey()
    ensures KeyDirections("0 1 -2 -1") == [0, 0, 1, -1]
    ensures KeyFeature("0 1 -2 -1") == "0 1"
  {
    TwoFeatureKeyTokens();
    TwoFeatureKeyFeatureTokens();
    assert ["0", "1"][1..] == ["1"];
  }

  /** Of the four tokens, the value tokens are dropped. */
  lemma TwoFeatureKeyFeatureTokens()
    ensures FeatureTokens(["0", "1", "-2", "-1"]) == ["0", "1"]
  {
    var t1, t2, t3, t4 := ["0"], ["0", "1"], ["0", "1", "-2"], ["0", "1", "-2", "-1"];
    assert !IsValueToken("0") && !IsValueToken("1") && IsValueToken("-2") && IsValueToken("-1");
    assert t4[..3] == t3 && t3[..2] == t2 && t2[..1] == t1 && t1[..0] == [];
    assert FeatureTokens(t1) == ["0"];
    assert FeatureTokens(t2) == ["0", "1"];
    assert FeatureTokens(t3) == ["0", "1"];
  }

  /** The token loop of get_sub_trie: the child's direction and feature under `key`. */
  method ParseKey(key: string, direction: seq<int>) returns (newDirection: seq<int>, newFeature: string)
    ensures newDirection == direction + KeyDirections(key)
    ensures newFeature == KeyFeature(key)
  {
    var curName := Split(key, ' ');
    // the parent's direction is copied, not shared
    newDirection := direction;
    var tempFeatureList: seq<string> := [];
    for i := 0 to |curName|
      invariant newDirection == direction + KeyDirections(key)[..i]
      invariant tempFeatureList == FeatureTokens(curName[..i])
    {
      assert curName[..i + 1][..i] == curName[..i];
      assert KeyDirections(key)[..i + 1] == KeyDirections(key)[..i] + [ValueCode(curName[i])];
      if IsValueToken(curName[i]) {
        newDirection := newDirection + [ValueCode(curName[i])];
      } else {
        newDirection := newDirection + [0];
        // the token encodes a feature id
        tempFeatureList := tempFeatureList + [curName[i]];
      }
    }
    assert curName[..|curName|] == curName;
    assert KeyDirections(key)[..|curName|] == KeyDirections(key);
    newFeature := Join(" ", tempFeatureList);
  }

  // ------------------------------------------------------------ merging siblings

  /** The index of the first node with feature `f`, or -1. */
  function FindFeature(nodes: seq<HNode>, f: string): (p: int)
    ensures -1 <= p < |nodes|
    ensures p >= 0 ==> Feature(nodes[p]) == f && forall q | 0 <= q < p :: Feature(nodes[q]) != f
    ensures p == -1 ==> forall q | 0 <= q < |nodes| :: Feature(nodes[q]) != f
    decreases |nodes|
  {
    if nodes == [] then -1
    else if Feature(nodes[0]) == f then 0
    else
      var p := FindFeature(nodes[1..], f);
      assert forall q | 1 <= q < |nodes| :: nodes[q] == nodes[1..][q - 1];
      if p == -1 then -1 else p + 1
  }

  /**
   * One turn of the merge loop: `k` is appended, or its children are appended
   * to those of the first node with its feature; a terminal on either side has
   * no 'c' and raises KeyError.
   */
  function MergeInto(merged: seq<HNode>, k: HNode): Result<seq<HNode>> {
    var p := FindFeature(merged, Feature(k));
    if p == -1 then Ok(merged + [k])
    else if merged[p].HLeaf? || k.HLeaf? then KeyError
    else Ok(merged[p := HBranch(merged[p].f, merged[p].c + k.c)])
  }

  /** The merge loop of get_sub_trie over the children in order. */
  function MergeSiblings(children: seq<HNode>): Result<seq<HNode>>
    decreases |children|
  {
    if children == [] then Ok([])
    else match MergeSiblings(children[..|children| - 1])
      case KeyError => KeyError
      case Ok(merged) => MergeInto(merged, children[|children| - 1])
  }

  // The reference for the merge: grouping by feature.

  /** The features of the nodes, each once, in order of first occurrence. */
  function DistinctFeatures(nodes: seq<HNode>): seq<string>
    decreases |nodes|
  {
    if nodes == [] then []
    else
      var fs := DistinctFeatures(nodes[..|nodes| - 1]);
      var f := Feature(nodes[|nodes| - 1]);
      if f in fs then fs else fs + [f]
  }

  /** The children of all non-terminal nodes with feature `f`, concatenated in order. */
  function ChildrenWith(nodes: seq<HNode>, f: string): seq<HNode>
    decreases |nodes|
  {
    if nodes == [] then []
    else
      var last := nodes[|nodes| - 1];
      ChildrenWith(nodes[..|nodes| - 1], f) + (if last.HBranch? && last.f == f then last.c else [])
  }

  /** The first terminal with feature `f`. */
  function LeafWith(nodes: seq<HNode>, f: string): (r: Option<HNode>)
    ensures r.Some? ==> r.value.HLeaf? && Feature(r.value) == f && r.value in nodes
    ensures r.None? <==> forall j | 0 <= j < |nodes| :: !(nodes[j].HLeaf? && Feature(nodes[j]) == f)
    decreases |nodes|
  {
    if nodes == [] then None
    else
      var prefix, last := nodes[..|nodes| - 1], nodes[|nodes| - 1];
      assert nodes == prefix + [last];
      var r := LeafWith(prefix, f);
      if r.Some? then r
      else if last.HLeaf? && Feature(last) == f then Some(last)
      else None
  }

  /** The node that stands for feature `f` after grouping. */
  function GroupOf(nodes: seq<HNode>, f: string): HNode {
    match LeafWith(nodes, f)
    case Some(leaf) => leaf
    case None => HBranch(f, ChildrenWith(nodes, f))
  }

  /** The nodes grouped by feature: one node per feature, in order of first occurrence. */
  function Grouped(nodes: seq<HNode>): seq<HNode> {
    var fs := DistinctFeatures(nodes);
    seq(|fs|, i requires 0 <= i < |fs| => GroupOf(nodes, fs[i]))
  }

  /** Only non-terminal nodes share a feature. */
  predicate NoLeafDuplicates(nodes: seq<HNode>) {
    forall i, j | 0 <= i < j < |nodes| && Feature(nodes[i]) == Feature(nodes[j]) :: nodes[i].HBranch? && nodes[j].HBranch?
  }

  /** No two entries are equal. */
  predicate DistinctStrings(fs: seq<string>) {
    forall a, b | 0 <= a < b < |fs| :: fs[a] != fs[b]
  }

  /** The features a node sequence has. */
  function Features(nodes: seq<HNode>): (fs: seq<string>)
    ensures |fs| == |nodes| && forall j | 0 <= j < |nodes| :: fs[j] == Feature(nodes[j])
  {
    seq(|nodes|, j requires 0 <= j < |nodes| => Feature(nodes[j]))
  }

  /** Each feature is listed once. */
  lemma {:induction false} DistinctFeaturesDistinct(nodes: seq<HNode>)
    ensures DistinctStrings(DistinctFeatures(nodes))
    decreases |nodes|
  {
    if nodes != [] {
      DistinctFeaturesDistinct(nodes[..|nodes| - 1]);
    }
  }

  /** The listed features are exactly the features of the nodes. */
  lemma {:induction false} DistinctFeaturesCover(nodes: seq<HNode>)
    ensures forall j | 0 <= j < |nodes| :: Feature(nodes[j]) in DistinctFeatures(nodes)
    ensures forall a | 0 <= a < |DistinctFeatures(nodes)| :: DistinctFeatures(nodes)[a] in Features(nodes)
    decreases |nodes|
  {
    if nodes != [] {
      var n := |nodes| - 1;
      var prefix := nodes[..n];
      DistinctFeaturesCover(prefix);
      var fs0, fs := DistinctFeatures(prefix), DistinctFeatures(nodes);
      forall j | 0 <= j < n ensures Feature(nodes[j]) in fs {
        assert Feature(prefix[j]) in fs0;
      }
      forall a | 0 <= a < |fs| ensures fs[a] in Features(nodes) {
        if a < |fs0| {
          var j :| 0 <= j < |prefix| && Features(prefix)[j] == fs0[a];
          assert Features(nodes)[j] == fs[a];
        } else {
          assert Features(nodes)[n] == fs[a];
        }
      }
    }
  }

  /** Appending a node leaves the first occurrence of a feature where it was, or puts it at the new node. */
  lemma FindFeatureSnoc(nodes: seq<HNode>, k: HNode, f: string)
    ensures FindFeature(nodes + [k], f) ==
      if FindFeature(nodes, f) >= 0 then FindFeature(nodes, f)
      else if Feature(k) == f then |nodes| else -1
  {
    var all := nodes + [k];
    var p, r := FindFeature(nodes, f), FindFeature(all, f);
    assert all[|nodes|] == k;
    if 0 <= r < |nodes| {
      assert all[r] == nodes[r];
    }
    if p >= 0 {
      assert all[p] == nodes[p];
    }
  }

  /** Features listed in the order in which they first occur among the nodes. */
  predicate InFirstOccurrenceOrder(nodes: seq<HNode>, fs: seq<string>) {
    forall a, b | 0 <= a < b < |fs| :: 0 <= FindFeature(nodes, fs[a]) < FindFeature(nodes, fs[b])
  }

  /** The features are listed in the order of their first occurrence among the nodes. */
  lemma {:induction false} DistinctFeaturesInOrder(nodes: seq<HNode>)
    ensures InFirstOccurrenceOrder(nodes, DistinctFeatures(nodes))
    decreases |nodes|
  {
    if nodes != [] {
      var n := |nodes| - 1;
      DistinctFeaturesInOrder(nodes[..n]);
      InOrderSnoc(nodes[..n], nodes[n]);
      assert nodes[..n] + [nodes[n]] == nodes;
    }
  }

  lemma InOrderSnoc(prefix: seq<HNode>, k: HNode)
    requires InFirstOccurrenceOrder(prefix, DistinctFeatures(prefix))
    ensures InFirstOccurrenceOrder(prefix + [k], DistinctFeatures(prefix + [k]))
  {
    var nodes := prefix + [k];
    var n := |prefix|;
    assert nodes[..n] == prefix;
    var fs0, fs := DistinctFeatures(prefix), DistinctFeatures(nodes);
    KnownFeaturesKeepPlace(prefix, k);
    if Feature(k) in fs0 {
      assert fs == fs0;
    } else {
      assert fs == fs0 + [Feature(k)];
      DistinctFeaturesCover(prefix);
      assert FindFeature(prefix, Feature(k)) == -1;
      FindFeatureSnoc(prefix, k, Feature(k));
      assert FindFeature(nodes, fs[|fs0|]) == n;
      forall a, b | 0 <= a < b < |fs|
        ensures 0 <= FindFeature(nodes, fs[a]) < FindFeature(nodes, fs[b])
      {
        assert fs[a] == fs0[a];
        if b < |fs0| {
          assert fs[b] == fs0[b];
        }
      }
    }
  }

  /** Appending a node moves no first occurrence of a feature already present. */
  lemma KnownFeaturesKeepPlace(prefix: seq<HNode>, k: HNode)
    ensures forall a | 0 <= a < |DistinctFeatures(prefix)| ::
      0 <= FindFeature(prefix + [k], DistinctFeatures(prefix)[a]) == FindFeature(prefix, DistinctFeatures(prefix)[a]) < |prefix|
  {
    var fs0 := DistinctFeatures(prefix);
    DistinctFeaturesCover(prefix);
    forall a | 0 <= a < |fs0| ensures 0 <= FindFeature(prefix + [k], fs0[a]) == FindFeature(prefix, fs0[a]) < |prefix| {
      var j :| 0 <= j < |prefix| && Features(prefix)[j] == fs0[a];
      assert Feature(prefix[j]) == fs0[a];
      FindFeatureSnoc(prefix, k, fs0[a]);
    }
  }

  /** A feature no node has has no terminal and no children. */
  lemma {:induction false} AbsentFeature(nodes: seq<HNode>, f: string)
    requires forall j | 0 <= j < |nodes| :: Feature(nodes[j]) != f
    ensures LeafWith(nodes, f) == None && ChildrenWith(nodes, f) == []
    decreases |nodes|
  {
    if nodes != [] {
      AbsentFeature(nodes[..|nodes| - 1], f);
    }
  }

  /** The first terminal of a feature after appending a node. */
  lemma LeafWithSnoc(nodes: seq<HNode>, k: HNode, f: string)
    ensures LeafWith(nodes + [k], f)
            == if LeafWith(nodes, f).Some? then LeafWith(nodes, f)
               else if k.HLeaf? && Feature(k) == f then Some(k) else None
  {
    assert (nodes + [k])[..|nodes|] == nodes;
  }

  /** The children of a feature after appending a node. */
  lemma ChildrenWithSnoc(nodes: seq<HNode>, k: HNode, f: string)
    ensures ChildrenWith(nodes + [k], f)
            == ChildrenWith(nodes, f) + (if k.HBranch? && k.f == f then k.c else [])
  {
    assert (nodes + [k])[..|nodes|] == nodes;
  }

  /** The group of a feature other than the new node's is not changed by the node. */
  lemma GroupOfOther(nodes: seq<HNode>, k: HNode, f: string)
    requires Feature(k) != f
    ensures GroupOf(nodes + [k], f) == GroupOf(nodes, f)
  {
    LeafWithSnoc(nodes, k, f);
    ChildrenWithSnoc(nodes, k, f);
  }

  /** The features of the grouped nodes are the distinct features. */
  lemma GroupedFeatures(nodes: seq<HNode>)
    ensures Features(Grouped(nodes)) == DistinctFeatures(nodes)
  {
  }

  /** A step of the merge that meets a new feature appends the node. */
  lemma MergeNewFeature(nodes: seq<HNode>, k: HNode)
    requires NoLeafDuplicates(nodes)
    requires Feature(k) !in DistinctFeatures(nodes)
    ensures NoLeafDuplicates(nodes + [k])
    ensures Grouped(nodes + [k]) == Grouped(nodes) + [k]
  {
    DistinctFeaturesCover(nodes);
    assert forall j | 0 <= j < |nodes| :: Feature(nodes[j]) != Feature(k);
    NewFeatureNoClash(nodes, k);
    GroupedNewFeature(nodes, k);
  }

  lemma NewFeatureNoClash(nodes: seq<HNode>, k: HNode)
    requires NoLeafDuplicates(nodes)
    requires forall j | 0 <= j < |nodes| :: Feature(nodes[j]) != Feature(k)
    ensures NoLeafDuplicates(nodes + [k])
  {
    var all := nodes + [k];
    forall i, j | 0 <= i < j < |all| && Feature(all[i]) == Feature(all[j])
      ensures all[i].HBranch? && all[j].HBranch?
    {
      assert all[i] == nodes[i];
      assert j < |nodes|;
      assert all[j] == nodes[j];
    }
  }

  lemma NewDistinctFeature(nodes: seq<HNode>, k: HNode)
    requires Feature(k) !in DistinctFeatures(nodes)
    ensures DistinctFeatures(nodes + [k]) == DistinctFeatures(nodes) + [Feature(k)]
  {
    assert (nodes + [k])[..|nodes|] == nodes;
  }

  lemma GroupedNewFeature(nodes: seq<HNode>, k: HNode)
    requires forall j | 0 <= j < |nodes| :: Feature(nodes[j]) != Feature(k)
    requires Feature(k) !in DistinctFeatures(nodes)
    ensures Grouped(nodes + [k]) == Grouped(nodes) + [k]
  {
    NewDistinctFeature(nodes, k);
    KnownGroupsKept(nodes, k);
    NewGroup(nodes, k);
    var g, m := Grouped(nodes + [k]), |Grouped(nodes)|;
    assert g[m] == k;
    LastSplit(g);
  }

  /** A non-empty sequence is its front followed by its last element. */
  lemma LastSplit<T>(s: seq<T>)
    requires |s| >= 1
    ensures s == s[..|s| - 1] + [s[|s| - 1]]
  {
  }

  /** Appending a node of a new feature keeps the groups already there. */
  lemma KnownGroupsKept(nodes: seq<HNode>, k: HNode)
    requires Feature(k) !in DistinctFeatures(nodes)
    requires DistinctFeatures(nodes + [k]) == DistinctFeatures(nodes) + [Feature(k)]
    ensures |Grouped(nodes + [k])| == |Grouped(nodes)| + 1
    ensures Grouped(nodes + [k])[..|Grouped(nodes)|] == Grouped(nodes)
  {
    var fs := DistinctFeatures(nodes);
    var g, g0 := Grouped(nodes + [k]), Grouped(nodes);
    forall i | 0 <= i < |fs| ensures g[i] == g0[i] {
      assert fs[i] != Feature(k);
      GroupOfOther(nodes, k, fs[i]);
    }
    assert g[..|g0|] == g0;
  }

  /** A node whose feature is new forms its own group. */
  lemma NewGroup(nodes: seq<HNode>, k: HNode)
    requires forall j | 0 <= j < |nodes| :: Feature(nodes[j]) != Feature(k)
    ensures GroupOf(nodes + [k], Feature(k)) == k
  {
    AbsentFeature(nodes, Feature(k));
    LeafWithSnoc(nodes, k, Feature(k));
    ChildrenWithSnoc(nodes, k, Feature(k));
  }

  /** A step of the merge that meets a known feature, with neither side a terminal, joins the children. */
  lemma MergeKnownFeature(nodes: seq<HNode>, k: HNode, p: nat)
    requires NoLeafDuplicates(nodes)
    requires p < |DistinctFeatures(nodes)| && DistinctFeatures(nodes)[p] == Feature(k)
    requires GroupOf(nodes, Feature(k)).HBranch? && k.HBranch?
    ensures NoLeafDuplicates(nodes + [k])
    ensures Grouped(nodes + [k])
            == Grouped(nodes)[p := HBranch(Grouped(nodes)[p].f, Grouped(nodes)[p].c + k.c)]
  {
    var all := nodes + [k];
    assert all[..|nodes|] == nodes;
    DistinctFeaturesDistinct(nodes);
    var fs := DistinctFeatures(nodes);
    var f := Feature(k);
    assert LeafWith(nodes, f) == None;
    assert DistinctFeatures(all) == fs;
    forall i | 0 <= i < |fs| && i != p ensures GroupOf(all, fs[i]) == GroupOf(nodes, fs[i]) {
      GroupOfOther(nodes, k, fs[i]);
    }
    assert GroupOf(all, f) == HBranch(f, ChildrenWith(nodes, f) + k.c);
  }

  /** A step of the merge that meets a known feature with a terminal on either side: two nodes share a feature and one is a terminal. */
  lemma MergeLeafClash(nodes: seq<HNode>, k: HNode)
    requires Feature(k) in DistinctFeatures(nodes)
    requires GroupOf(nodes, Feature(k)).HLeaf? || k.HLeaf?
    ensures !NoLeafDuplicates(nodes + [k])
  {
    var all := nodes + [k];
    var f := Feature(k);
    if LeafWith(nodes, f).Some? {
      var j :| 0 <= j < |nodes| && nodes[j] == LeafWith(nodes, f).value;
      assert all[j] == nodes[j] && all[|nodes|] == k;
    } else {
      DistinctFeaturesCover(nodes);
      var j :| 0 <= j < |nodes| && Features(nodes)[j] == f;
      assert all[j] == nodes[j] && all[|nodes|] == k;
    }
  }

  /** Once two earlier nodes clash, the nodes clash. */
  lemma PrefixClash(nodes: seq<HNode>, k: HNode)
    requires !NoLeafDuplicates(nodes)
    ensures !NoLeafDuplicates(nodes + [k])
  {
    var i, j :| 0 <= i < j < |nodes| && Feature(nodes[i]) == Feature(nodes[j]) && !(nodes[i].HBranch? && nodes[j].HBranch?);
    assert (nodes + [k])[i] == nodes[i] && (nodes + [k])[j] == nodes[j];
  }

  /** One step of the merge loop against the grouping reference. */
  lemma MergeStep(nodes: seq<HNode>, k: HNode)
    requires NoLeafDuplicates(nodes)
    ensures MergeInto(Grouped(nodes), k)
            == if NoLeafDuplicates(nodes + [k]) then Ok(Grouped(nodes + [k])) else KeyError
  {
    var merged := Grouped(nodes);
    GroupedFeatures(nodes);
    var p := FindFeature(merged, Feature(k));
    if p == -1 {
      assert Feature(k) !in Features(merged);
      MergeNewFeature(nodes, k);
    } else {
      assert Features(merged)[p] == Feature(k);
      if merged[p].HLeaf? || k.HLeaf? {
        MergeLeafClash(nodes, k);
      } else {
        MergeKnownFeature(nodes, k, p);
      }
    }
  }

  /**
   * The merge loop groups the children by feature: it raises KeyError
   * exactly when two children share a feature and one of them is a terminal,
   * and otherwise returns one node per feature, in order of first occurrence,
   * whose children are those of all the siblings with that feature, in order.
   */
  lemma {:induction false} MergeSiblingsGroups(children: seq<HNode>)
    ensures MergeSiblings(children) == if NoLeafDuplicates(children) then Ok(Grouped(children)) else KeyError
    decreases |children|
  {
    if children == [] {
      assert Grouped(children) == [];
    } else {
      var n := |children| - 1;
      var nodes, k := children[..n], children[n];
      assert children == nodes + [k];
      MergeSiblingsGroups(nodes);
      if NoLeafDuplicates(nodes) {
        assert MergeSiblings(children) == MergeInto(Grouped(nodes), k);
        MergeStep(nodes, k);
      } else {
        PrefixClash(nodes, k);
      }
    }
  }

  /** After a merge, siblings have pairwise distinct features, in order of first occurrence. */
  lemma MergedFeaturesDistinct(children: seq<HNode>)
    requires MergeSiblings(children).Ok?
    ensures Features(MergeSiblings(children).value) == DistinctFeatures(children)
    ensures DistinctStrings(Features(MergeSiblings(children).value))
    ensures InFirstOccurrenceOrder(children, Features(MergeSiblings(children).value))
  {
    MergeSiblingsGroups(children);
    GroupedFeatures(children);
    DistinctFeaturesDistinct(children);
    DistinctFeaturesInOrder(children);
  }

  /** A KeyError in the merge loop ends it. */
  lemma {:induction false} MergeErrorPersists(children: seq<HNode>, j: nat)
    requires j <= |children| && MergeSiblings(children[..j]) == KeyError
    ensures MergeSiblings(children) == KeyError
    decreases |children| - j
  {
    if j < |children| {
      assert children[..j + 1][..j] == children[..j];
      MergeErrorPersists(children, j + 1);
    } else {
      assert children[..j] == children;
    }
  }

  /** The merge loop, with the inner search for an earlier sibling of the same feature. */
  method MergeChildren(children: seq<HNode>) returns (result: Result<seq<HNode>>)
    ensures result == MergeSiblings(children)
  {
    var newChildren: seq<HNode> := [];
    for j := 0 to |children|
      invariant MergeSiblings(children[..j]) == Ok(newChildren)
    {
      var k := children[j];
      assert children[..j + 1][..j] == children[..j];
      assert MergeSiblings(children[..j + 1]) == MergeInto(newChildren, k);
      ghost var before := newChildren;
      var isDuplicate := false;
      var p := 0;
      while p < |newChildren|
        invariant 0 <= p <= |newChildren| && newChildren == before
        invariant forall q | 0 <= q < p :: Feature(before[q]) != Feature(k)
      {
        if Feature(k) == Feature(newChildren[p]) {
          assert FindFeature(before, Feature(k)) == p;
          if newChildren[p].HLeaf? || k.HLeaf? {
            // p['c'] or k['c'] does not exist
            MergeErrorPersists(children, j + 1);
            return KeyError;
          }
          newChildren := newChildren[p := HBranch(newChildren[p].f, newChildren[p].c + k.c)];
          isDuplicate := true;
          break;
        }
        p := p + 1;
      }
      if !isDuplicate {
        assert FindFeature(before, Feature(k)) == -1;
        newChildren := newChildren + [k];
      }
    }
    assert children[..|children|] == children;
    result := Ok(newChildren);
  }

  // ------------------------------------------------------------ get_sub_trie

  predicate AllOk<T>(results: seq<Result<T>>) {
    forall i | 0 <= i < |results| :: results[i].Ok?
  }

  function Values<T>(results: seq<Result<T>>): (values: seq<T>)
    requires AllOk(results)
    ensures |values| == |results| && forall i | 0 <= i < |results| :: results[i] == Ok(values[i])
  {
    seq(|results|, i requires 0 <= i < |results| => results[i].value)
  }

  /** The children get_sub_trie builds, before merging, one per key in order. */
  function ChildResults(subtrie: Value, direction: seq<int>, metric: string, round: real -> real): seq<Result<HNode>>
    requires IsScoredTrie(subtrie, metric) && !HasKey(subtrie.items, metric)
    decreases subtrie, 0
  {
    var items := subtrie.items;
    seq(|items|, i requires 0 <= i < |items| =>
      SubTrie(items[i].value, KeyFeature(items[i].key), direction + KeyDirections(items[i].key), metric, round))
  }

  /** get_sub_trie as a value; `round` stands for Python's `round(x, 5)`. */
  function SubTrie(subtrie: Value, feature: string, direction: seq<int>, metric: string, round: real -> real): Result<HNode>
    requires IsScoredTrie(subtrie, metric)
    decreases subtrie, 1
  {
    var items := subtrie.items;
    if HasKey(items, metric) then Ok(HLeaf(direction, round(Lookup(items, metric).value.n)))
    else
      var children := ChildResults(subtrie, direction, metric, round);
      if !AllOk(children) then KeyError
      else match MergeSiblings(Values(children))
        case KeyError => KeyError
        case Ok(merged) => Ok(HBranch(feature, merged))
  }

  /** A key whose sub-trie raises KeyError makes get_sub_trie raise it. */
  lemma SubTrieChildFails(subtrie: Value, feature: string, direction: seq<int>, metric: string, round: real -> real, i: nat)
    requires IsScoredTrie(subtrie, metric) && !HasKey(subtrie.items, metric)
    requires i < |subtrie.items| && ChildResults(subtrie, direction, metric, round)[i].KeyError?
    ensures SubTrie(subtrie, feature, direction, metric, round) == KeyError
  {
  }

  /** Once every key has its sub-trie, get_sub_trie is the merge of them. */
  lemma SubTrieOfChildren(subtrie: Value, feature: string, direction: seq<int>, metric: string, round: real -> real,
                          children: seq<HNode>)
    requires IsScoredTrie(subtrie, metric) && !HasKey(subtrie.items, metric)
    requires |children| == |subtrie.items|
    requires forall j | 0 <= j < |children| :: ChildResults(subtrie, direction, metric, round)[j] == Ok(children[j])
    ensures SubTrie(subtrie, feature, direction, metric, round)
            == match MergeSiblings(children)
               case KeyError => KeyError
               case Ok(merged) => Ok(HBranch(feature, merged))
  {
    assert Values(ChildResults(subtrie, direction, metric, round)) == children;
  }

  /** get_sub_trie */
  method GetSubTrie(subtrie: Value, feature: string, direction: seq<int>, metric: string, round: real -> real)
    returns (result: Result<HNode>)
    requires IsScoredTrie(subtrie, metric)
    ensures result == SubTrie(subtrie, feature, direction, metric, round)
    decreases subtrie
  {
    var items := subtrie.items;
    // a terminal: a leaf carrying the rounded metric
    if HasKey(items, metric) {
      return Ok(HLeaf(direction, round(Lookup(items, metric).value.n)));
    }
    ghost var results := ChildResults(subtrie, direction, metric, round);
    var children: seq<HNode> := [];
    for i := 0 to |items|
      invariant |children| == i
      invariant forall j | 0 <= j < i :: results[j] == Ok(children[j])
    {
      var newDirection, newFeature := ParseKey(items[i].key, direction);
      var child := GetSubTrie(items[i].value, newFeature, newDirection, metric, round);
      assert results[i] == child;
      if child.KeyError? {
        SubTrieChildFails(subtrie, feature, direction, metric, round, i);
        return KeyError;
      }
      children := children + [child.value];
    }
    SubTrieOfChildren(subtrie, feature, direction, metric, round, children);
    var merged := MergeChildren(children);
    if merged.KeyError? {
      return KeyError;
    }
    return Ok(HBranch(feature, merged.value));
  }

  /** Every leaf below `n` has a direction that starts with `direction`. */
  predicate LeavesExtend(n: HNode, direction: seq<int>)
    decreases n
  {
    match n
    case HLeaf(d, _) => direction <= d
    case HBranch(_, c) => forall i | 0 <= i < |c| :: LeavesExtend(c[i], direction)
  }

  lemma {:induction false} LeavesExtendPrefix(n: HNode, direction: seq<int>, longer: seq<int>)
    requires direction <= longer && LeavesExtend(n, longer)
    ensures LeavesExtend(n, direction)
    decreases n
  {
    if n.HBranch? {
      forall i | 0 <= i < |n.c| ensures LeavesExtend(n.c[i], direction) {
        LeavesExtendPrefix(n.c[i], direction, longer);
      }
    }
  }

  lemma {:induction false} ChildrenWithExtend(nodes: seq<HNode>, f: string, direction: seq<int>)
    requires forall j | 0 <= j < |nodes| :: LeavesExtend(nodes[j], direction)
    ensures forall i | 0 <= i < |ChildrenWith(nodes, f)| :: LeavesExtend(ChildrenWith(nodes, f)[i], direction)
    decreases |nodes|
  {
    if nodes != [] {
      var n := |nodes| - 1;
      ChildrenWithExtend(nodes[..n], f, direction);
      assert LeavesExtend(nodes[n], direction);
    }
  }

  /** Merging moves nodes and children around but keeps every leaf: the grouped nodes keep the property. */
  lemma GroupedExtend(nodes: seq<HNode>, direction: seq<int>)
    requires forall j | 0 <= j < |nodes| :: LeavesExtend(nodes[j], direction)
    ensures forall i | 0 <= i < |Grouped(nodes)| :: LeavesExtend(Grouped(nodes)[i], direction)
  {
    var fs := DistinctFeatures(nodes);
    forall i | 0 <= i < |fs| ensures LeavesExtend(GroupOf(nodes, fs[i]), direction) {
      var leaf := LeafWith(nodes, fs[i]);
      if leaf.None? {
        ChildrenWithExtend(nodes, fs[i], direction);
      }
    }
  }

  /**
   * get_sub_trie returns a terminal exactly for a terminal dict, and it has
   * the direction handed down; otherwise a node with the feature handed down,
   * whose children have pairwise distinct features.
   */
  lemma SubTrieShape(subtrie: Value, feature: string, direction: seq<int>, metric: string, round: real -> real)
    requires IsScoredTrie(subtrie, metric)
    ensures var r := SubTrie(subtrie, feature, direction, metric, round);
      && (r.Ok? && r.value.HLeaf? <==> HasKey(subtrie.items, metric))
      && (r.Ok? && r.value.HLeaf? ==> r.value.d == direction)
      && (r.Ok? && r.value.HBranch? ==> r.value.f == feature && DistinctStrings(Features(r.value.c)))
  {
    if !HasKey(subtrie.items, metric) {
      var children := ChildResults(subtrie, direction, metric, round);
      if AllOk(children) && MergeSiblings(Values(children)).Ok? {
        MergedFeaturesDistinct(Values(children));
      }
    }
  }

  /** Directions accumulate down the hierarchy: every leaf's direction starts with the direction handed to get_sub_trie. */
  lemma {:induction false} SubTrieLeavesExtend(subtrie: Value, feature: string, direction: seq<int>, metric: string, round: real -> real)
    requires IsScoredTrie(subtrie, metric)
    requires SubTrie(subtrie, feature, direction, metric, round).Ok?
    ensures LeavesExtend(SubTrie(subtrie, feature, direction, metric, round).value, direction)
    decreases subtrie
  {
    var items := subtrie.items;
    if !HasKey(items, metric) {
      var children := ChildResults(subtrie, direction, metric, round);
      assert AllOk(children);
      var values := Values(children);
      forall i | 0 <= i < |values| ensures LeavesExtend(values[i], direction) {
        var longer := direction + KeyDirections(items[i].key);
        assert children[i] == SubTrie(items[i].value, KeyFeature(items[i].key), longer, metric, round);
        SubTrieLeavesExtend(items[i].value, KeyFeature(items[i].key), longer, metric, round);
        LeavesExtendPrefix(values[i], direction, longer);
      }
      MergeSiblingsGroups(values);
      GroupedExtend(values, direction);
    }
  }

  // ------------------------------------------------------------ get_hierarchy_dict

  /** A trie whose top-level entries are all scored tries. */
  predicate IsTrieForest(trie: Value, metric: string) {
    trie.Dict? && DistinctKeys(trie.items) && forall i | 0 <= i < |trie.items| :: IsScoredTrie(trie.items[i].value, metric)
  }

  /** The root's children: one per top-level key, in order, whose feature is the key itself and whose direction is empty. */
  function RootChildren(trie: Value, metric: string, round: real -> real): seq<Result<HNode>>
    requires IsTrieForest(trie, metric)
  {
    seq(|trie.items|, i requires 0 <= i < |trie.items| => SubTrie(trie.items[i].value, trie.items[i].key, [], metric, round))
  }

  /** get_hierarchy_dict as a value: the root's children are not merged. */
  function HierarchyDict(trie: Value, metric: string, round: real -> real): Result<HNode>
    requires IsTrieForest(trie, metric)
  {
    var children := RootChildren(trie, metric, round);
    if AllOk(children) then Ok(HBranch("root", Values(children))) else KeyError
  }

  /** get_hierarchy_dict */
  method GetHierarchyDict(trie: Value, metric: string, round: real -> real) returns (result: Result<HNode>)
    requires IsTrieForest(trie, metric)
    ensures result == HierarchyDict(trie, metric, round)
  {
    ghost var results := RootChildren(trie, metric, round);
    var items := trie.items;
    var children: seq<HNode> := [];
    var direction: seq<int> := [];
    for i := 0 to |items|
      invariant |children| == i
      invariant forall j | 0 <= j < i :: results[j] == Ok(children[j])
    {
      // a root key is a bare feature id: its sub-trie starts with no directions
      var child := GetSubTrie(items[i].value, items[i].key, direction, metric, round);
      assert results[i] == child;
      if child.KeyError? {
        return KeyError;
      }
      children := children + [child.value];
    }
    assert Values(results) == children;
    return Ok(HBranch("root", children));
  }

  /**
   * The root is 'root' with one child per top-level key, in order, each
   * built with the key as its feature and an empty direction, and never
   * merged; a KeyError anywhere below makes the whole call raise.
   */
  lemma HierarchyDictShape(trie: Value, metric: string, round: real -> real)
    requires IsTrieForest(trie, metric)
    ensures var r := HierarchyDict(trie, metric, round);
      && (r.KeyError? <==> exists i | 0 <= i < |trie.items| :: SubTrie(trie.items[i].value, trie.items[i].key, [], metric, round).KeyError?)
      && (r.Ok? ==> r.value.HBranch? && r.value.f == "root" && |r.value.c| == |trie.items|)
      && (r.Ok? ==> forall i | 0 <= i < |trie.items| ::
            Ok(r.value.c[i]) == SubTrie(trie.items[i].value, trie.items[i].key, [], metric, round))
  {
    var children := RootChildren(trie, metric, round);
    forall i | 0 <= i < |trie.items|
      ensures children[i] == SubTrie(trie.items[i].value, trie.items[i].key, [], metric, round)
    {
    }
    if !AllOk(children) {
      var i :| 0 <= i < |children| && children[i].KeyError?;
      assert SubTrie(trie.items[i].value, trie.items[i].key, [], metric, round).KeyError?;
    }
  }

  // ------------------------------------------------------------ examples

  /** Two trees that differ only in the last split: terminal scores 0.5 and 0.75. */
  const LeafA := Dict([Entry("objective", Num(0.5))])
  const LeafB := Dict([Entry("objective", Num(0.75))])

  /** Terminals directly below the root are kept side by side, since the root is not merged. */
  lemma RootKeepsTerminalSiblings(round: real -> real)
    ensures HierarchyDict(Dict([Entry("0", LeafA), Entry("1", LeafB)]), "objective", round)
            == Ok(HBranch("root", [HLeaf([], round(0.5)), HLeaf([], round(0.75))]))
  {
    var trie := Dict([Entry("0", LeafA), Entry("1", LeafB)]);
    assert Lookup(LeafA.items, "objective") == Some(Num(0.5));
    assert Lookup(LeafB.items, "objective") == Some(Num(0.75));
    assert HasKey(LeafA.items, "objective") && HasKey(LeafB.items, "objective");
    assert IsTrieForest(trie, "objective");
    assert Values(RootChildren(trie, "objective", round)) == [HLeaf([], round(0.5)), HLeaf([], round(0.75))];
  }

  /** A dict that holds the metric key. */
  predicate IsTerminal(v: Value, metric: string) {
    v.Dict? && HasKey(v.items, metric)
  }

  /**
   * Below the root, two terminal children of one dict are both '_' and have
   * no 'c', so the merge raises KeyError: a dict can hold at most one
   * terminal child for get_sub_trie to succeed.
   */
  lemma TerminalSiblingsRaiseKeyError(subtrie: Value, feature: string, direction: seq<int>, metric: string, round: real -> real, i: nat, j: nat)
    requires IsScoredTrie(subtrie, metric) && !HasKey(subtrie.items, metric)
    requires i < j < |subtrie.items|
    requires IsTerminal(subtrie.items[i].value, metric) && IsTerminal(subtrie.items[j].value, metric)
    ensures SubTrie(subtrie, feature, direction, metric, round) == KeyError
  {
    var items := subtrie.items;
    var children := ChildResults(subtrie, direction, metric, round);
    if AllOk(children) {
      var values := Values(children);
      SubTrieShape(items[i].value, KeyFeature(items[i].key), direction + KeyDirections(items[i].key), metric, round);
      SubTrieShape(items[j].value, KeyFeature(items[j].key), direction + KeyDirections(items[j].key), metric, round);
      assert values[i].HLeaf? && values[j].HLeaf?;
      MergeSiblingsGroups(values);
    }
  }
}
