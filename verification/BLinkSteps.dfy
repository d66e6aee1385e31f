/** One lemma per thing an operation does to the arena: change a leaf, split, adopt a child, grow a root. */
module BLinkSteps {
  import opened Common
  import opened BLinkModel
  import opened BLinkInvariant
  import opened BLinkContents

  /** Everything but the link from level `gap` down, with node `spared` of any size. */
  ghost predicate Holds(nodes: seq<Node>, levels: seq<Level>, m: map<Key, Value>, gap: nat, spared: int) {
    Shape(nodes, levels, gap) && Sizes(nodes, levels, spared) && Stores(nodes, levels[0], m)
  }

  /** The parents on `up` list the level below as it was before one of its nodes split into what is now `low`. */
  ghost predicate Lags(nodes: seq<Node>, up: Level, low: Level, was: Level, p: nat, newId: NodeId, sep: Key) {
    && WellFormed(was) && p < |was.ids| && Inside(was, p, sep)
    && low == SplitLevel(was, p, newId, sep) && LinkOK(nodes, up, was)
  }

  ghost predicate LagsBehind(nodes: seq<Node>, up: Level, low: Level) {
    exists was, p, newId, sep :: Lags(nodes, up, low, was, p, newId, sep)
  }

  /**
    What a reader can rely on, also between the split of a node and the update of its parent: every
    level is a chain, and each is linked to the one below, or on level `gap` lags behind one split.
  */
  ghost predicate Readable(nodes: seq<Node>, levels: seq<Level>, m: map<Key, Value>, gap: nat) {
    && Shape(nodes, levels, gap) && Stores(nodes, levels[0], m)
    && (0 < gap < |levels| ==> LagsBehind(nodes, levels[gap], levels[gap - 1]))
  }

  /** A link that lags behind a split is the link there was before it. */
  lemma SplitLags(nodes: seq<Node>, nodes': seq<Node>, levels: seq<Level>, levels': seq<Level>, m: map<Key, Value>, l: nat, i: nat, newId: NodeId, sep: Key)
    requires l < |levels| && Shape(nodes, levels, 0) && i < |levels[l].ids| && Inside(levels[l], i, sep) && |nodes| <= |nodes'|
    requires forall x :: 0 <= x < |nodes| && x != levels[l].ids[i] ==> nodes'[x] == nodes[x]
    requires levels' == levels[l := SplitLevel(levels[l], i, newId, sep)] && Shape(nodes', levels', l + 1) && Stores(nodes', levels'[0], m)
    ensures Readable(nodes', levels', m, l + 1)
  {
    if l + 1 < |levels| {
      var up := levels[l + 1];
      DistinctAt(levels, l, i);
      assert LinkOK(nodes, up, levels[l]);
      assert ChainOK(nodes, up, false);
      LinkUnchanged(nodes, nodes', up, levels[l]);
      assert Lags(nodes', levels'[l + 1], levels'[l], levels[l], i, newId, sep);
    }
  }

  /** Inserts that the leaf level can account for: 32 per split, plus what exceeds a fresh half. */
  ghost function Credit(nodes: seq<Node>, lv: Level): nat
    requires forall i :: 0 <= i < |lv.ids| ==> lv.ids[i] < |nodes|
  {
    TotalExcess(nodes, lv.ids) + SPLIT_AT * |lv.ids|
  }

  lemma SizesAfterReplace(nodes: seq<Node>, levels: seq<Level>, l: nat, i: nat, n: Node)
    requires Chains(nodes, levels) && Sizes(nodes, levels, -1) && l < |levels| && i < |levels[l].ids|
    requires Chains(nodes[levels[l].ids[i] := n], levels)
    ensures Sizes(nodes[levels[l].ids[i] := n], levels, levels[l].ids[i])
  {
  }

  lemma SizesComplete(nodes: seq<Node>, levels: seq<Level>, l: nat, i: nat)
    requires Distinct(levels) && Chains(nodes, levels) && l < |levels| && i < |levels[l].ids|
    requires Sizes(nodes, levels, levels[l].ids[i]) && SizeOK(nodes[levels[l].ids[i]], l, |levels[l].ids| == 1)
    ensures Sizes(nodes, levels, -1)
  {
    DistinctAt(levels, l, i);
  }

  // ---------------------------------------------------------------- leaves

  /** Any change of one leaf that stores the new bindings of its key range. */
  lemma LeafStep(nodes: seq<Node>, levels: seq<Level>, m: map<Key, Value>, i: nat, n: Node, m': map<Key, Value>)
    requires Holds(nodes, levels, m, 0, -1) && i < |levels[0].ids|
    requires LeafOK(n, m') && n.right == nodes[levels[0].ids[i]].right && n.high == nodes[levels[0].ids[i]].high
    requires forall j :: 0 <= j < |n.keys| ==> Covers(levels[0], i, n.keys[j])
    requires forall k :: k in m' && Covers(levels[0], i, k) ==> k in n.keys
    requires SameOutside(levels[0], i, m, m')
    ensures var nodes' := nodes[levels[0].ids[i] := n];
      && Holds(nodes', levels, m', 0, levels[0].ids[i])
      && Credit(nodes', levels[0]) - Excess(n) == Credit(nodes, levels[0]) - Excess(nodes[levels[0].ids[i]])
  {
    LeafChange(nodes, levels, i, n);
    DistinctAt(levels, 0, i);
    SizesAfterReplace(nodes, levels, 0, i, n);
    StoreInLeaf(nodes, levels[0], m, i, n, m');
    ReplaceExcess(nodes, nodes[levels[0].ids[i] := n], levels[0].ids, i);
  }

  lemma KeysOfLeaf(nodes: seq<Node>, levels: seq<Level>, m: map<Key, Value>, i: nat, key: Key)
    requires Holds(nodes, levels, m, 0, -1) && i < |levels[0].ids| && Covers(levels[0], i, key)
    ensures LeafOK(nodes[levels[0].ids[i]], m)
    ensures key in m <==> key in nodes[levels[0].ids[i]].keys
    ensures forall k :: k in nodes[levels[0].ids[i]].keys ==> Covers(levels[0], i, k)
    ensures |nodes[levels[0].ids[i]].keys| <= NODE_CAPACITY
  {
    assert SizeOK(nodes[levels[0].ids[i]], 0, |levels[0].ids| == 1);
  }

  lemma LeafInsertStep(nodes: seq<Node>, levels: seq<Level>, m: map<Key, Value>, i: nat, key: Key, value: Value)
    requires Holds(nodes, levels, m, 0, -1) && i < |levels[0].ids| && Covers(levels[0], i, key)
    requires LeafOK(nodes[levels[0].ids[i]], m) && key !in nodes[levels[0].ids[i]].keys
    ensures var n := nodes[levels[0].ids[i]]; var n' := LeafWith(n, LowerBound(n.keys, key), key, value);
      var nodes' := nodes[levels[0].ids[i] := n'];
      && Holds(nodes', levels, m[key := value], 0, levels[0].ids[i])
      && Credit(nodes', levels[0]) <= Credit(nodes, levels[0]) + 1
  {
    var n := nodes[levels[0].ids[i]];
    var n' := LeafWith(n, LowerBound(n.keys, key), key, value);
    KeysOfLeaf(nodes, levels, m, i, key);
    LeafInsertOK(n, m, key, value);
    LeafStep(nodes, levels, m, i, n', m[key := value]);
  }

  lemma LeafReplaceStep(nodes: seq<Node>, levels: seq<Level>, m: map<Key, Value>, i: nat, p: nat, value: Value)
    requires Holds(nodes, levels, m, 0, -1) && i < |levels[0].ids|
    requires LeafOK(nodes[levels[0].ids[i]], m) && p < |nodes[levels[0].ids[i]].keys|
    ensures var n := nodes[levels[0].ids[i]]; var nodes' := nodes[levels[0].ids[i] := n.(vals := n.vals[p := value])];
      && Holds(nodes', levels, m[n.keys[p] := value], 0, -1)
      && Credit(nodes', levels[0]) == Credit(nodes, levels[0])
  {
    var n := nodes[levels[0].ids[i]];
    KeysOfLeaf(nodes, levels, m, i, n.keys[p]);
    LeafReplaceOK(n, m, p, value);
    LeafStep(nodes, levels, m, i, n.(vals := n.vals[p := value]), m[n.keys[p] := value]);
    SizesComplete(nodes[levels[0].ids[i] := n.(vals := n.vals[p := value])], levels, 0, i);
  }

  lemma LeafRemoveStep(nodes: seq<Node>, levels: seq<Level>, m: map<Key, Value>, i: nat, p: nat)
    requires Holds(nodes, levels, m, 0, -1) && i < |levels[0].ids|
    requires LeafOK(nodes[levels[0].ids[i]], m) && p < |nodes[levels[0].ids[i]].keys|
    ensures var n := nodes[levels[0].ids[i]];
      var nodes' := nodes[levels[0].ids[i] := n.(keys := RemoveAt(n.keys, p), vals := RemoveAt(n.vals, p))];
      && Holds(nodes', levels, m - {n.keys[p]}, 0, -1)
      && Credit(nodes', levels[0]) <= Credit(nodes, levels[0])
  {
    var n := nodes[levels[0].ids[i]];
    var n' := n.(keys := RemoveAt(n.keys, p), vals := RemoveAt(n.vals, p));
    KeysOfLeaf(nodes, levels, m, i, n.keys[p]);
    LeafRemoveOK(n, m, p);
    LeafStep(nodes, levels, m, i, n', m - {n.keys[p]});
    SizesComplete(nodes[levels[0].ids[i] := n'], levels, 0, i);
  }

  // ---------------------------------------------------------------- splits

  lemma SizesAfterSplit(nodes: seq<Node>, levels: seq<Level>, l: nat, i: nat, left: Node, right: Node, sep: Key)
    requires Distinct(levels) && Chains(nodes, levels) && l < |levels| && i < |levels[l].ids|
    requires Sizes(nodes, levels, levels[l].ids[i])
    requires var nodes', levels' := nodes[levels[l].ids[i] := left] + [right], levels[l := SplitLevel(levels[l], i, |nodes|, sep)];
      Chains(nodes', levels')
    requires SizeOK(left, l, false) && SizeOK(right, l, false)
    ensures var nodes', levels' := nodes[levels[l].ids[i] := left] + [right], levels[l := SplitLevel(levels[l], i, |nodes|, sep)];
      Sizes(nodes', levels', -1)
  {
    var nodes', levels' := nodes[levels[l].ids[i] := left] + [right], levels[l := SplitLevel(levels[l], i, |nodes|, sep)];
    DistinctAt(levels, l, i);
    forall a, k | 0 <= a < |levels'| && 0 <= k < |levels'[a].ids|
      ensures SizeOK(nodes'[levels'[a].ids[k]], a, |levels'[a].ids| == 1)
    {
      SplitPlace(nodes, levels, l, i, sep, a, k);
      var b := if a == l && k > i then k - 1 else k;
      if a != l || (k != i && k != i + 1) {
        assert levels[a].ids[b] != levels[l].ids[i];
        assert SizeOK(nodes[levels[a].ids[b]], a, |levels[a].ids| == 1);
      }
    }
  }

  function LeftLeaf(n: Node, newId: NodeId): (r: Node)
    requires n.Leaf? && SPLIT_AT < |n.keys| == |n.vals|
    ensures r.Leaf?
  {
    Leaf(n.keys[..SPLIT_AT], n.vals[..SPLIT_AT], Some(newId), Some(n.keys[SPLIT_AT]))
  }

  function RightLeaf(n: Node): (r: Node)
    requires n.Leaf? && SPLIT_AT < |n.keys| == |n.vals|
    ensures r.Leaf?
  {
    Leaf(n.keys[SPLIT_AT..], n.vals[SPLIT_AT..], n.right, n.high)
  }

  /** Splitting an overfull leaf pays for the new leaf with the 32 keys it held in excess. */
  lemma LeafSplitStep(nodes: seq<Node>, levels: seq<Level>, m: map<Key, Value>, i: nat)
    requires |levels| > 0 && i < |levels[0].ids| && Holds(nodes, levels, m, 0, levels[0].ids[i])
    requires LeafOK(nodes[levels[0].ids[i]], m) && |nodes[levels[0].ids[i]].keys| == NODE_CAPACITY + 1
    ensures var n := nodes[levels[0].ids[i]]; var sep := n.keys[SPLIT_AT];
      var nodes' := nodes[levels[0].ids[i] := LeftLeaf(n, |nodes|)] + [RightLeaf(n)];
      && Inside(levels[0], i, sep)
      && Holds(nodes', levels[0 := SplitLevel(levels[0], i, |nodes|, sep)], m, 1, -1)
      && Credit(nodes', SplitLevel(levels[0], i, |nodes|, sep)) == Credit(nodes, levels[0])
  {
    var n := nodes[levels[0].ids[i]];
    var sep := n.keys[SPLIT_AT];
    var left, right := LeftLeaf(n, |nodes|), RightLeaf(n);
    var nodes' := nodes[levels[0].ids[i] := left] + [right];
    var levels' := levels[0 := SplitLevel(levels[0], i, |nodes|, sep)];
    assert levels'[0] == SplitLevel(levels[0], i, |nodes|, sep);
    DistinctAt(levels, 0, i);
    StoreSplit(nodes, levels[0], m, i, SPLIT_AT, left, right);
    SplitStep(nodes, levels, 0, i, left, right, sep);
    SizesAfterSplit(nodes, levels, 0, i, left, right, sep);
    SplitExcess(nodes, nodes', levels[0], i, sep, levels'[0].ids);
  }

  /** Until the parent is updated, the new leaf can be reached through the right-link of the old one. */
  lemma LeafSplitReadable(nodes: seq<Node>, levels: seq<Level>, m: map<Key, Value>, i: nat)
    requires |levels| > 0 && i < |levels[0].ids| && Holds(nodes, levels, m, 0, levels[0].ids[i])
    requires LeafOK(nodes[levels[0].ids[i]], m) && |nodes[levels[0].ids[i]].keys| == NODE_CAPACITY + 1
    ensures var n := nodes[levels[0].ids[i]];
      Readable(nodes[levels[0].ids[i] := LeftLeaf(n, |nodes|)] + [RightLeaf(n)],
               levels[0 := SplitLevel(levels[0], i, |nodes|, n.keys[SPLIT_AT])], m, 1)
  {
    var n := nodes[levels[0].ids[i]];
    LeafSplitStep(nodes, levels, m, i);
    SplitLags(nodes, nodes[levels[0].ids[i] := LeftLeaf(n, |nodes|)] + [RightLeaf(n)], levels,
              levels[0 := SplitLevel(levels[0], i, |nodes|, n.keys[SPLIT_AT])], m, 0, i, |nodes|, n.keys[SPLIT_AT]);
  }

  function LeftInternal(n: Node, newId: NodeId): (r: Node)
    requires n.Internal? && SPLIT_AT < |n.keys| && |n.children| == |n.keys| + 1
    ensures r.Internal?
  {
    Internal(n.keys[..SPLIT_AT], n.children[..SPLIT_AT + 1], Some(newId), Some(n.keys[SPLIT_AT]))
  }

  function RightInternal(n: Node): (r: Node)
    requires n.Internal? && SPLIT_AT < |n.keys| && |n.children| == |n.keys| + 1
    ensures r.Internal?
  {
    Internal(n.keys[SPLIT_AT + 1..], n.children[SPLIT_AT + 1..], n.right, n.high)
  }

  /** A key of an internal node lies strictly inside the node's range. */
  lemma KeyInside(nodes: seq<Node>, up: Level, low: Level, i: nat, c: nat)
    requires WellFormed(up) && WellFormed(low) && LinkOK(nodes, up, low)
    requires i < |up.ids| && c < |nodes[up.ids[i]].keys|
    ensures Inside(up, i, nodes[up.ids[i]].keys[c])
  {
    var x := nodes[up.ids[i]];
    var off := Offset(nodes, up, i);
    SliceBelow(nodes, up, low, i);
    assert x.keys[c] == low.seps[off..off + |x.keys|][c] == low.seps[off + c];
  }

  /** Both halves of a full internal node, linked to the level below. */
  lemma InternalHalves(nodes: seq<Node>, up: Level, low: Level, i: nat)
    requires WellFormed(up) && WellFormed(low) && LinkOK(nodes, up, low) && i < |up.ids|
    requires forall a :: 0 <= a < |up.ids| && up.ids[a] == up.ids[i] ==> a == i
    requires SPLIT_AT < |nodes[up.ids[i]].keys|
    ensures var n := nodes[up.ids[i]]; var sep := n.keys[SPLIT_AT];
      && Inside(up, i, sep)
      && LinkOK(nodes[up.ids[i] := LeftInternal(n, |nodes|)] + [RightInternal(n)], SplitLevel(up, i, |nodes|, sep), low)
  {
    var n := nodes[up.ids[i]];
    var nodes' := nodes[up.ids[i] := LeftInternal(n, |nodes|)] + [RightInternal(n)];
    KeyInside(nodes, up, low, i, SPLIT_AT);
    SplitInternalLink(nodes, nodes', up, low, i, n.keys[SPLIT_AT]);
  }

  lemma InternalSplitStep(nodes: seq<Node>, levels: seq<Level>, m: map<Key, Value>, l: nat, i: nat)
    requires 0 < l < |levels| && i < |levels[l].ids| && Holds(nodes, levels, m, 0, levels[l].ids[i])
    requires var n := nodes[levels[l].ids[i]]; n.Internal? && |n.keys| == NODE_CAPACITY + 1 && |n.children| == |n.keys| + 1
    ensures var n := nodes[levels[l].ids[i]]; var sep := n.keys[SPLIT_AT];
      var nodes' := nodes[levels[l].ids[i] := LeftInternal(n, |nodes|)] + [RightInternal(n)];
      && Inside(levels[l], i, sep)
      && Holds(nodes', levels[l := SplitLevel(levels[l], i, |nodes|, sep)], m, l + 1, -1)
      && Credit(nodes', levels[0]) == Credit(nodes, levels[0])
  {
    var n := nodes[levels[l].ids[i]];
    var sep := n.keys[SPLIT_AT];
    var left, right := LeftInternal(n, |nodes|), RightInternal(n);
    DistinctAt(levels, l, i);
    assert LinkOK(nodes, levels[l], levels[l - 1]) && ChainOK(nodes, levels[l - 1], l == 1);
    InternalHalves(nodes, levels[l], levels[l - 1], i);
    SplitStep(nodes, levels, l, i, left, right, sep);
    SizesAfterSplit(nodes, levels, l, i, left, right, sep);
    StoresUnchanged(nodes, nodes[levels[l].ids[i] := left] + [right], levels, m, l);
  }

  lemma StoresUnchanged(nodes: seq<Node>, nodes': seq<Node>, levels: seq<Level>, m: map<Key, Value>, l: nat)
    requires 0 < l < |levels| && ChainOK(nodes, levels[0], true) && Stores(nodes, levels[0], m) && |nodes| <= |nodes'|
    requires forall k :: 0 <= k < |levels[0].ids| ==> nodes'[levels[0].ids[k]] == nodes[levels[0].ids[k]]
    ensures ChainOK(nodes', levels[0], true) && Stores(nodes', levels[0], m)
    ensures Credit(nodes', levels[0]) == Credit(nodes, levels[0])
  {
    TotalExcessUnchanged(nodes, nodes', levels[0].ids);
  }

  // ---------------------------------------------------------------- parents and roots

  /** What `insert_rec` on the `i`-th node of level `l` may have done to levels `l` and above. */
  ghost predicate GrewBelow(nodes: seq<Node>, levels: seq<Level>, nodes': seq<Node>, levels': seq<Level>, l: nat, i: nat,
                            split: Option<(Key, NodeId)>)
    requires l < |levels| && i < |levels[l].ids| && Chains(nodes, levels)
  {
    && |nodes| <= |nodes'| && |levels'| == |levels|
    && (forall a :: l < a < |levels| ==> levels'[a] == levels[a])
    && (forall a, k :: l < a < |levels| && 0 <= k < |levels[a].ids| ==> nodes'[levels[a].ids[k]] == nodes[levels[a].ids[k]])
    && (split.None? ==> levels'[l] == levels[l])
    && (split.Some? ==> Inside(levels[l], i, split.value.0))
    && (split.Some? ==> levels'[l] == SplitLevel(levels[l], i, split.value.1, split.value.0))
  }

  /** The place of a new separator among the parent's keys is the index of the child that split. */
  lemma SepPosition(nodes: seq<Node>, up: Level, low: Level, i: nat, j: nat, sep: Key)
    requires WellFormed(up) && WellFormed(low) && LinkOK(nodes, up, low)
    requires i < |up.ids| && j <= |nodes[up.ids[i]].keys| && Offset(nodes, up, i) + j < |low.ids|
    requires Inside(low, Offset(nodes, up, i) + j, sep)
    ensures LowerBound(nodes[up.ids[i]].keys, sep) == j
  {
    var keys := nodes[up.ids[i]].keys;
    var off := Offset(nodes, up, i);
    SliceBelow(nodes, up, low, i);
    IncreasingSlice(low.seps, off, off + |keys|);
    assert j > 0 ==> keys[j - 1] == low.seps[off + j - 1];
    assert j < |keys| ==> keys[j] == low.seps[off + j];
    LowerBoundIs(keys, sep, j);
  }

  lemma LowerBoundIs(keys: seq<Key>, key: Key, j: nat)
    requires Increasing(keys) && j <= |keys|
    requires j > 0 ==> keys[j - 1] < key
    requires j < |keys| ==> key < keys[j]
    ensures LowerBound(keys, key) == j
  {
  }

  lemma AdoptShape(nodes: seq<Node>, up: Level, low: Level, nodes1: seq<Node>, levels1: seq<Level>,
                   l: nat, i: nat, j: nat, sep: Key, newId: NodeId)
    requires LinkOK(nodes, up, low) && WellFormed(low) && i < |up.ids| && j <= |nodes[up.ids[i]].keys|
    requires Offset(nodes, up, i) + j < |low.ids|
    requires Shape(nodes1, levels1, l) && 0 < l < |levels1| && |nodes| <= |nodes1|
    requires levels1[l] == up && levels1[l - 1] == SplitLevel(low, Offset(nodes, up, i) + j, newId, sep)
    requires forall k :: 0 <= k < |up.ids| ==> nodes1[up.ids[k]] == nodes[up.ids[k]]
    ensures Shape(nodes1[up.ids[i] := WithChild(nodes[up.ids[i]], j, sep, newId)], levels1, 0)
  {
    var x := WithChild(nodes[up.ids[i]], j, sep, newId);
    var nodes2 := nodes1[up.ids[i] := x];
    assert ChainOK(nodes1, levels1[l], false);
    ReplaceKeepsChains(nodes1, levels1, l, i, x);
    assert LinkOK(nodes2, up, levels1[l - 1]) by {
      DistinctAt(levels1, l, i);
      AdoptChild(nodes, nodes2, up, low, i, j, sep, newId);
    }
    OthersUnchanged(nodes1, levels1, l, i, x);
    FillGap(nodes1, nodes2, levels1, l);
  }

  lemma FillGap(nodes: seq<Node>, nodes': seq<Node>, levels: seq<Level>, l: nat)
    requires Links(nodes, levels, l) && |nodes| <= |nodes'| && 0 < l < |levels|
    requires forall a, k :: 0 <= a < |levels| && a != l && 0 <= k < |levels[a].ids| ==>
      levels[a].ids[k] < |nodes| && nodes'[levels[a].ids[k]] == nodes[levels[a].ids[k]]
    requires LinkOK(nodes', levels[l], levels[l - 1])
    ensures Links(nodes', levels, 0)
  {
    LinksElsewhere(nodes, nodes', levels, levels, l, l);
  }

  lemma OthersUnchanged(nodes: seq<Node>, levels: seq<Level>, l: nat, i: nat, n: Node)
    requires Distinct(levels) && Chains(nodes, levels) && l < |levels| && i < |levels[l].ids|
    ensures forall a, k :: 0 <= a < |levels| && a != l && 0 <= k < |levels[a].ids| ==>
      levels[a].ids[k] < |nodes| && nodes[levels[l].ids[i] := n][levels[a].ids[k]] == nodes[levels[a].ids[k]]
  {
    DistinctAt(levels, l, i);
    forall a, k | 0 <= a < |levels| && a != l && 0 <= k < |levels[a].ids|
      ensures levels[a].ids[k] < |nodes| && levels[a].ids[k] != levels[l].ids[i]
    {
      assert ChainOK(nodes, levels[a], a == 0);
    }
  }

  /** Changing an internal node leaves the leaves alone. */
  lemma InternalReplace(nodes: seq<Node>, levels: seq<Level>, m: map<Key, Value>, l: nat, i: nat, n: Node)
    requires 0 < l < |levels| && i < |levels[l].ids| && Distinct(levels) && Chains(nodes, levels)
    requires Sizes(nodes, levels, -1) && Stores(nodes, levels[0], m)
    requires Shape(nodes[levels[l].ids[i] := n], levels, 0)
    ensures Holds(nodes[levels[l].ids[i] := n], levels, m, 0, levels[l].ids[i])
    ensures Credit(nodes[levels[l].ids[i] := n], levels[0]) == Credit(nodes, levels[0])
  {
    DistinctAt(levels, l, i);
    assert ChainOK(nodes, levels[0], true);
    SizesAfterReplace(nodes, levels, l, i, n);
    StoresUnchanged(nodes, nodes[levels[l].ids[i] := n], levels, m, l);
  }

  /** A parent records the split of its `j`-th child: the tree is whole again, up to the parent's size. */
  lemma AdoptStep(nodes: seq<Node>, levels: seq<Level>, nodes1: seq<Node>, levels1: seq<Level>, m: map<Key, Value>,
                  l: nat, i: nat, j: nat, p: nat, sep: Key, newId: NodeId)
    requires Chains(nodes, levels) && 0 < l < |levels| && i < |levels[l].ids|
    requires LinkOK(nodes, levels[l], levels[l - 1]) && p == Offset(nodes, levels[l], i) + j < |levels[l - 1].ids|
    requires j <= |nodes[levels[l].ids[i]].keys|
    requires GrewBelow(nodes, levels, nodes1, levels1, l - 1, p, Some((sep, newId)))
    requires Holds(nodes1, levels1, m, l, -1)
    ensures LowerBound(nodes[levels[l].ids[i]].keys, sep) == j
    ensures nodes1[levels[l].ids[i]] == nodes[levels[l].ids[i]]
    ensures var id := levels[l].ids[i]; Holds(nodes1[id := WithChild(nodes[id], j, sep, newId)], levels1, m, 0, id)
    ensures var id := levels[l].ids[i];
      Credit(nodes1[id := WithChild(nodes[id], j, sep, newId)], levels1[0]) == Credit(nodes1, levels1[0])
  {
    var id := levels[l].ids[i];
    assert ChainOK(nodes, levels[l], false) && ChainOK(nodes, levels[l - 1], l == 1) && levels1[l] == levels[l];
    SepPosition(nodes, levels[l], levels[l - 1], i, j, sep);
    AdoptShape(nodes, levels[l], levels[l - 1], nodes1, levels1, l, i, j, sep, newId);
    InternalReplace(nodes1, levels1, m, l, i, WithChild(nodes[id], j, sep, newId));
  }

  /** From what happened below level `l` and to one node of it, what happened up to level `l`. */
  lemma GrewUp(nodes0: seq<Node>, levels0: seq<Level>, nodes1: seq<Node>, levels1: seq<Level>, p: nat, below: (Key, NodeId),
               nodes2: seq<Node>, levels2: seq<Level>, l: nat, i: nat, split: Option<(Key, NodeId)>)
    requires 0 < l < |levels0| && i < |levels0[l].ids| && p < |levels0[l - 1].ids| && Chains(nodes0, levels0)
    requires GrewBelow(nodes0, levels0, nodes1, levels1, l - 1, p, Some(below)) && Distinct(levels1)
    requires |nodes1| <= |nodes2|
    requires forall x :: 0 <= x < |nodes1| && x != levels0[l].ids[i] ==> nodes2[x] == nodes1[x]
    requires split.None? ==> levels2 == levels1
    requires split.Some? ==> Inside(levels0[l], i, split.value.0)
    requires split.Some? ==> levels2 == levels1[l := SplitLevel(levels0[l], i, split.value.1, split.value.0)]
    ensures GrewBelow(nodes0, levels0, nodes2, levels2, l, i, split)
  {
    DistinctAt(levels1, l, i);
    forall a, k | l < a < |levels0| && 0 <= k < |levels0[a].ids|
      ensures nodes2[levels0[a].ids[k]] == nodes0[levels0[a].ids[k]]
    {
      assert ChainOK(nodes0, levels0[a], a == 0);
      assert levels1[a] == levels0[a] && levels1[l] == levels0[l];
    }
  }

  /** The whole effect of inserting below the `i`-th node of level `l`. */
  ghost predicate Inserted(nodes0: seq<Node>, levels0: seq<Level>, m0: map<Key, Value>,
                           nodes: seq<Node>, levels: seq<Level>, m: map<Key, Value>,
                           key: Key, value: Value, l: nat, i: nat, split: Option<(Key, NodeId)>)
  {
    && l < |levels0| && i < |levels0[l].ids| && Chains(nodes0, levels0)
    && GrewBelow(nodes0, levels0, nodes, levels, l, i, split)
    && m == m0[key := value]
    && Holds(nodes, levels, m, if split.None? then 0 else l + 1, -1)
    && Keeps(levels0, levels)
    && Credit(nodes, levels[0]) <= Credit(nodes0, levels0[0]) + if key in m0 then 0 else 1
  }

  lemma InsertedNoSplit(nodes0: seq<Node>, levels0: seq<Level>, m0: map<Key, Value>,
                        nodes: seq<Node>, levels: seq<Level>, m: map<Key, Value>,
                        key: Key, value: Value, p: nat, l: nat, i: nat)
    requires 0 < l < |levels0| && i < |levels0[l].ids|
    requires Inserted(nodes0, levels0, m0, nodes, levels, m, key, value, l - 1, p, None)
    ensures Inserted(nodes0, levels0, m0, nodes, levels, m, key, value, l, i, None)
  {
  }

  /** Inserting below a single root leaves either that root or two nodes to put a new root above. */
  lemma InsertedAtRoot(nodes0: seq<Node>, levels0: seq<Level>, m0: map<Key, Value>,
                       nodes: seq<Node>, levels: seq<Level>, m: map<Key, Value>,
                       key: Key, value: Value, root: NodeId, split: Option<(Key, NodeId)>)
    requires |levels0| > 0 && levels0[|levels0| - 1] == Level([root], [])
    requires Inserted(nodes0, levels0, m0, nodes, levels, m, key, value, |levels0| - 1, 0, split)
    ensures split.None? ==> Inv(nodes, root, levels, m)
    ensures |levels| > 0 && Chains(nodes, levels) && Keeps(levels0, levels)
    ensures split.Some? ==> Holds(nodes, levels, m, |levels|, -1)
    ensures split.Some? ==> levels[|levels| - 1] == Level([root, split.value.1], [split.value.0])
    ensures Credit(nodes, levels[0]) <= Credit(nodes0, levels0[0]) + if key in m0 then 0 else 1
  {
    if split.Some? {
      var top := SplitLevel(Level([root], []), 0, split.value.1, split.value.0);
      assert top.ids == [root, split.value.1] && top.seps == [split.value.0];
    }
  }

  lemma NewRootLink(nodes: seq<Node>, root: NodeId, newId: NodeId, sep: Key)
    requires |nodes| > 0 && nodes[|nodes| - 1] == Internal([sep], [root, newId], None, None)
    ensures LinkOK(nodes, Level([|nodes| - 1], []), Level([root, newId], [sep]))
    ensures ChainOK(nodes, Level([|nodes| - 1], []), false)
  {
    var top := Level([|nodes| - 1], []);
    assert top.ids[1..] == [];
    assert FlatChildren(nodes, top.ids) == nodes[|nodes| - 1].children + FlatChildren(nodes, top.ids[1..]);
  }

  lemma NewRootDistinct(nodes: seq<Node>, levels: seq<Level>)
    requires Distinct(levels) && Chains(nodes, levels)
    ensures Distinct(levels + [Level([|nodes|], [])])
  {
    var levels' := levels + [Level([|nodes|], [])];
    forall a: nat, i: nat, b: nat, j: nat | SameNode(levels', a, i, b, j) ensures a == b && i == j {
      assert a < |levels| ==> ChainOK(nodes, levels[a], a == 0) && levels'[a].ids[i] < |nodes|;
      assert b < |levels| ==> ChainOK(nodes, levels[b], b == 0) && levels'[b].ids[j] < |nodes|;
      assert a < |levels| && b < |levels| ==> SameNode(levels, a, i, b, j);
    }
  }

  lemma NewRootShape(nodes: seq<Node>, levels: seq<Level>, n: Node)
    requires |levels| > 0 && Shape(nodes, levels, |levels|)
    requires LinkOK(nodes + [n], Level([|nodes|], []), levels[|levels| - 1]) && ChainOK(nodes + [n], Level([|nodes|], []), false)
    ensures Shape(nodes + [n], levels + [Level([|nodes|], [])], 0)
  {
    NewRootDistinct(nodes, levels);
    NewRootLinks(nodes, levels, n);
  }

  lemma NewRootLinks(nodes: seq<Node>, levels: seq<Level>, n: Node)
    requires |levels| > 0 && Chains(nodes, levels) && Links(nodes, levels, |levels|)
    requires LinkOK(nodes + [n], Level([|nodes|], []), levels[|levels| - 1]) && ChainOK(nodes + [n], Level([|nodes|], []), false)
    ensures Chains(nodes + [n], levels + [Level([|nodes|], [])])
    ensures Links(nodes + [n], levels + [Level([|nodes|], [])], 0)
  {
    var nodes' := nodes + [n];
    var levels' := levels + [Level([|nodes|], [])];
    assert Chains(nodes', levels') by {
      forall a | 0 <= a < |levels| ensures ChainOK(nodes', levels'[a], a == 0) {
        ChainUnchanged(nodes, nodes', levels[a], a == 0);
      }
    }
    forall a | 0 < a < |levels'| ensures LinkOK(nodes', levels'[a], levels'[a - 1]) {
      if a < |levels| {
        assert ChainOK(nodes, levels[a], false);
        LinkUnchanged(nodes, nodes', levels[a], levels[a - 1]);
      }
    }
  }

  lemma NewRootSizes(nodes: seq<Node>, levels: seq<Level>, n: Node)
    requires Chains(nodes, levels) && Sizes(nodes, levels, -1) && 1 <= |n.keys| <= NODE_CAPACITY
    requires Chains(nodes + [n], levels + [Level([|nodes|], [])])
    ensures Sizes(nodes + [n], levels + [Level([|nodes|], [])], -1)
  {
    var nodes', levels' := nodes + [n], levels + [Level([|nodes|], [])];
    forall a, k | 0 <= a < |levels'| && 0 <= k < |levels'[a].ids|
      ensures SizeOK(nodes'[levels'[a].ids[k]], a, |levels'[a].ids| == 1)
    {
      if a < |levels| {
        assert SizeOK(nodes[levels[a].ids[k]], a, |levels[a].ids| == 1);
      }
    }
  }

  /** Putting a new root above a split one. */
  lemma NewRootStep(nodes: seq<Node>, levels: seq<Level>, m: map<Key, Value>, root: NodeId, sep: Key, newId: NodeId)
    requires |levels| > 0 && Holds(nodes, levels, m, |levels|, -1) && levels[|levels| - 1] == Level([root, newId], [sep])
    ensures var nodes' := nodes + [Internal([sep], [root, newId], None, None)];
      Inv(nodes', |nodes|, levels + [Level([|nodes|], [])], m) && Credit(nodes', levels[0]) == Credit(nodes, levels[0])
    ensures Keeps(levels, levels + [Level([|nodes|], [])])
  {
    var n := Internal([sep], [root, newId], None, None);
    var levels' := levels + [Level([|nodes|], [])];
    NewRootLink(nodes + [n], root, newId, sep);
    NewRootShape(nodes, levels, n);
    NewRootSizes(nodes, levels, n);
    assert levels'[0] == levels[0];
    TotalExcessUnchanged(nodes, nodes + [n], levels[0].ids);
  }
}
