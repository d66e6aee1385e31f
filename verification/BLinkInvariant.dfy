/** The invariant of the whole arena, and what each structural step does to it. */
module BLinkInvariant {
  import opened Common
  import opened BLinkModel

  // ---------------------------------------------------------------- the invariant

  ghost predicate SameNode(levels: seq<Level>, a: nat, i: nat, b: nat, j: nat) {
    && a < |levels| && i < |levels[a].ids| && b < |levels| && j < |levels[b].ids|
    && levels[a].ids[i] == levels[b].ids[j]
  }

  /** No node id occurs twice, on one level or on two. */
  ghost predicate Distinct(levels: seq<Level>) {
    forall a, i, b, j :: SameNode(levels, a, i, b, j) ==> a == b && i == j
  }

  /** One node seen from all others. */
  lemma DistinctAt(levels: seq<Level>, l: nat, i: nat)
    requires Distinct(levels) && l < |levels| && i < |levels[l].ids|
    ensures forall a, k :: 0 <= a < |levels| && 0 <= k < |levels[a].ids| && levels[a].ids[k] == levels[l].ids[i] ==>
      a == l && k == i
  {
    forall a, k | 0 <= a < |levels| && 0 <= k < |levels[a].ids| && levels[a].ids[k] == levels[l].ids[i]
      ensures a == l && k == i
    {
      assert SameNode(levels, a, k, l, i);
    }
  }

  ghost predicate Chains(nodes: seq<Node>, levels: seq<Level>) {
    forall a :: 0 <= a < |levels| ==> ChainOK(nodes, levels[a], a == 0)
  }

  /** Every level is linked to the one below it, except possibly level `gap` (0: no exception). */
  ghost predicate Links(nodes: seq<Node>, levels: seq<Level>, gap: nat) {
    forall a :: 0 < a < |levels| && a != gap ==> LinkOK(nodes, levels[a], levels[a - 1])
  }

  ghost predicate Shape(nodes: seq<Node>, levels: seq<Level>, gap: nat) {
    |levels| > 0 && Distinct(levels) && Chains(nodes, levels) && Links(nodes, levels, gap)
  }

  /** Leaves hold at most 64 keys; inner nodes 32 to 64, or at least one when alone on their level (the root). */
  ghost predicate SizeOK(n: Node, height: nat, alone: bool) {
    |n.keys| <= NODE_CAPACITY && (height > 0 ==> |n.keys| >= if alone then 1 else SPLIT_AT)
  }

  /** All sizes are in range, except possibly that of node `spared`. */
  ghost predicate Sizes(nodes: seq<Node>, levels: seq<Level>, spared: int)
    requires Chains(nodes, levels)
  {
    forall a, i :: 0 <= a < |levels| && 0 <= i < |levels[a].ids| && levels[a].ids[i] != spared ==>
      SizeOK(nodes[levels[a].ids[i]], a, |levels[a].ids| == 1)
  }

  ghost predicate LeafOK(n: Node, m: map<Key, Value>) {
    && n.Leaf? && |n.keys| == |n.vals| && Increasing(n.keys)
    && (forall j :: 0 <= j < |n.keys| ==> n.keys[j] in m && m[n.keys[j]] == n.vals[j])
  }

  /** The leaf level stores exactly the bindings of `m`, each in the leaf that covers its key. */
  ghost predicate Stores(nodes: seq<Node>, lv: Level, m: map<Key, Value>)
    requires ChainOK(nodes, lv, true)
  {
    && (forall i :: 0 <= i < |lv.ids| ==> LeafOK(nodes[lv.ids[i]], m))
    && (forall i, j :: 0 <= i < |lv.ids| && 0 <= j < |nodes[lv.ids[i]].keys| ==> Covers(lv, i, nodes[lv.ids[i]].keys[j]))
    && (forall k, i :: k in m && 0 <= i < |lv.ids| && Covers(lv, i, k) ==> k in nodes[lv.ids[i]].keys)
  }

  ghost predicate Inv(nodes: seq<Node>, root: NodeId, levels: seq<Level>, m: map<Key, Value>) {
    && Shape(nodes, levels, 0)
    && Sizes(nodes, levels, -1)
    && Stores(nodes, levels[0], m)
    && levels[|levels| - 1] == Level([root], [])
  }

  // ---------------------------------------------------------------- what a stale reader relies on

  /** The smallest key that belongs to the `i`-th node, if it has a left neighbour. */
  ghost function LowOf(lv: Level, i: nat): Option<Key> {
    if 0 < i <= |lv.seps| then Some(lv.seps[i - 1]) else None
  }

  ghost predicate At(lv: Level, id: NodeId, low: Option<Key>) {
    exists i :: 0 <= i < |lv.ids| && lv.ids[i] == id && LowOf(lv, i) == low
  }

  /** Every node keeps its level and the lower end of its key range. */
  ghost predicate Keeps(levels: seq<Level>, levels': seq<Level>) {
    && |levels| <= |levels'|
    && forall a, id, low :: 0 <= a < |levels| && At(levels[a], id, low) ==> At(levels'[a], id, low)
  }

  lemma KeepsTransitive(a: seq<Level>, b: seq<Level>, c: seq<Level>)
    requires Keeps(a, b) && Keeps(b, c)
    ensures Keeps(a, c)
  {
  }

  // ---------------------------------------------------------------- splitting one node of a level

  ghost function SplitLevel(lv: Level, i: nat, newId: NodeId, sep: Key): Level
    requires |lv.ids| == |lv.seps| + 1 && i < |lv.ids|
  {
    Level(lv.ids[..i + 1] + [newId] + lv.ids[i + 1..], lv.seps[..i] + [sep] + lv.seps[i..])
  }

  /** `sep` falls strictly inside the key range of the `i`-th node. */
  ghost predicate Inside(lv: Level, i: nat, sep: Key)
    requires WellFormed(lv) && i < |lv.ids|
  {
    (i > 0 ==> lv.seps[i - 1] < sep) && (i < |lv.seps| ==> sep < lv.seps[i])
  }

  lemma SplitWellFormed(lv: Level, i: nat, newId: NodeId, sep: Key)
    requires WellFormed(lv) && i < |lv.ids| && Inside(lv, i, sep)
    ensures WellFormed(SplitLevel(lv, i, newId, sep))
  {
    var seps' := SplitLevel(lv, i, newId, sep).seps;
    forall a, b | 0 <= a < b < |seps'| ensures seps'[a] < seps'[b] {
      var a' := if a < i then a else a - 1;
      var b' := if b < i then b else b - 1;
      assert seps'[a] == if a == i then sep else lv.seps[a'];
      assert seps'[b] == if b == i then sep else lv.seps[b'];
    }
  }

  lemma SplitKeeps(lv: Level, i: nat, newId: NodeId, sep: Key, id: NodeId, low: Option<Key>)
    requires WellFormed(lv) && i < |lv.ids| && At(lv, id, low)
    ensures At(SplitLevel(lv, i, newId, sep), id, low)
  {
    var lv' := SplitLevel(lv, i, newId, sep);
    var k :| 0 <= k < |lv.ids| && lv.ids[k] == id && LowOf(lv, k) == low;
    var k' := if k <= i then k else k + 1;
    assert lv'.ids[k'] == id && LowOf(lv', k') == low;
  }

  /** The halves of a split node take its place in the chain. */
  ghost predicate Halves(n: Node, left: Node, right: Node, newId: NodeId, sep: Key) {
    && left.Leaf? == right.Leaf? == n.Leaf?
    && left.right == Some(newId) && left.high == Some(sep)
    && right.right == n.right && right.high == n.high
  }

  lemma SplitChain(nodes: seq<Node>, lv: Level, leaves: bool, i: nat, left: Node, right: Node, sep: Key)
    requires ChainOK(nodes, lv, leaves) && i < |lv.ids| && Inside(lv, i, sep)
    requires forall a :: 0 <= a < |lv.ids| && lv.ids[a] == lv.ids[i] ==> a == i
    requires Halves(nodes[lv.ids[i]], left, right, |nodes|, sep)
    ensures ChainOK(nodes[lv.ids[i] := left] + [right], SplitLevel(lv, i, |nodes|, sep), leaves)
  {
    var lv' := SplitLevel(lv, i, |nodes|, sep);
    var nodes' := nodes[lv.ids[i] := left] + [right];
    SplitWellFormed(lv, i, |nodes|, sep);
    forall k | 0 <= k < |lv'.ids|
      ensures lv'.ids[k] < |nodes'| && nodes'[lv'.ids[k]].Leaf? == leaves
      ensures nodes'[lv'.ids[k]].right == RightOf(lv', k) && nodes'[lv'.ids[k]].high == HighOf(lv', k)
    {
      SplitIndex(lv, i, |nodes|, sep, k);
      if k < i || k > i + 1 {
        var b := if k < i then k else k - 1;
        assert nodes'[lv'.ids[k]] == nodes[lv.ids[b]];
      }
    }
  }

  /** Positions after a split: everything right of the new node moves up by one. */
  lemma SplitIndex(lv: Level, i: nat, newId: NodeId, sep: Key, k: nat)
    requires |lv.ids| == |lv.seps| + 1 && i < |lv.ids| && k <= |lv.ids|
    ensures var lv' := SplitLevel(lv, i, newId, sep);
      && lv'.ids[k] == (if k <= i then lv.ids[k] else if k == i + 1 then newId else lv.ids[k - 1])
      && RightOf(lv', k) == (if k < i then RightOf(lv, k) else if k == i then Some(newId) else RightOf(lv, k - 1))
      && HighOf(lv', k) == (if k < i then HighOf(lv, k) else if k == i then Some(sep) else HighOf(lv, k - 1))
  {
  }

  lemma ChainUnchanged(nodes: seq<Node>, nodes': seq<Node>, lv: Level, leaves: bool)
    requires ChainOK(nodes, lv, leaves) && |nodes| <= |nodes'|
    requires forall i :: 0 <= i < |lv.ids| ==> nodes'[lv.ids[i]] == nodes[lv.ids[i]]
    ensures ChainOK(nodes', lv, leaves)
  {
  }

  lemma SplitDistinct(nodes: seq<Node>, levels: seq<Level>, l: nat, i: nat, sep: Key)
    requires Distinct(levels) && Chains(nodes, levels) && l < |levels| && i < |levels[l].ids|
    ensures Distinct(levels[l := SplitLevel(levels[l], i, |nodes|, sep)])
  {
    var levels' := levels[l := SplitLevel(levels[l], i, |nodes|, sep)];
    forall a: nat, p: nat, b: nat, q: nat | SameNode(levels', a, p, b, q) ensures a == b && p == q {
      SplitPlace(nodes, levels, l, i, sep, a, p);
      SplitPlace(nodes, levels, l, i, sep, b, q);
      var p' := if a == l && p > i then p - 1 else p;
      var q' := if b == l && q > i then q - 1 else q;
      if !(a == l && p == i + 1) && !(b == l && q == i + 1) {
        assert SameNode(levels, a, p', b, q');
      }
    }
  }

  lemma SplitPlace(nodes: seq<Node>, levels: seq<Level>, l: nat, i: nat, sep: Key, a: nat, p: nat)
    requires Chains(nodes, levels) && l < |levels| && i < |levels[l].ids| && a < |levels|
    requires p < |levels[l := SplitLevel(levels[l], i, |nodes|, sep)][a].ids|
    ensures var id := levels[l := SplitLevel(levels[l], i, |nodes|, sep)][a].ids[p];
      var p' := if a == l && p > i then p - 1 else p;
      if a == l && p == i + 1 then id == |nodes| else p' < |levels[a].ids| && id == levels[a].ids[p'] && id < |nodes|
  {
    assert ChainOK(nodes, levels[a], a == 0);
    if a == l {
      SplitIndex(levels[l], i, |nodes|, sep, p);
    }
  }

  // ---------------------------------------------------------------- whole-arena steps

  /** Replacing a node by one with the same kind and links, on a level the links above do not read. */
  lemma ReplaceKeepsChains(nodes: seq<Node>, levels: seq<Level>, l: nat, i: nat, n: Node)
    requires Distinct(levels) && Chains(nodes, levels) && l < |levels| && i < |levels[l].ids|
    requires var old_ := nodes[levels[l].ids[i]]; n.Leaf? == old_.Leaf? && n.right == old_.right && n.high == old_.high
    ensures Chains(nodes[levels[l].ids[i] := n], levels)
  {
    var nodes' := nodes[levels[l].ids[i] := n];
    DistinctAt(levels, l, i);
    forall a | 0 <= a < |levels| ensures ChainOK(nodes', levels[a], a == 0) {
      assert ChainOK(nodes, levels[a], a == 0);
      assert forall k :: 0 <= k < |levels[a].ids| && levels[a].ids[k] != levels[l].ids[i] ==>
        nodes'[levels[a].ids[k]] == nodes[levels[a].ids[k]];
    }
  }

  /** Links of levels whose own nodes did not change survive. */
  lemma LinksElsewhere(nodes: seq<Node>, nodes': seq<Node>, levels: seq<Level>, levels': seq<Level>, l: nat, gap: nat)
    requires Links(nodes, levels, gap) && |levels| == |levels'| && |nodes| <= |nodes'|
    requires forall a :: 0 <= a < |levels| && a != l ==> levels'[a] == levels[a]
    requires forall a, k :: 0 <= a < |levels| && a != l && 0 <= k < |levels[a].ids| ==>
      levels[a].ids[k] < |nodes| && nodes'[levels[a].ids[k]] == nodes[levels[a].ids[k]]
    ensures forall a :: 0 < a < |levels'| && a != gap && a != l && a != l + 1 ==> LinkOK(nodes', levels'[a], levels'[a - 1])
    ensures l + 1 != gap && l + 1 < |levels| && levels'[l] == levels[l] ==> LinkOK(nodes', levels'[l + 1], levels'[l])
  {
    forall a | 0 < a < |levels'| && a != gap && a != l && a != l + 1
      ensures LinkOK(nodes', levels'[a], levels'[a - 1])
    {
      LinkUnchanged(nodes, nodes', levels[a], levels[a - 1]);
    }
    if l + 1 != gap && l + 1 < |levels| && levels'[l] == levels[l] {
      LinkUnchanged(nodes, nodes', levels[l + 1], levels[l]);
    }
  }

  /** Changing what a leaf stores leaves the shape alone. */
  lemma LeafChange(nodes: seq<Node>, levels: seq<Level>, i: nat, n: Node)
    requires Shape(nodes, levels, 0) && i < |levels[0].ids| && n.Leaf?
    requires n.right == nodes[levels[0].ids[i]].right && n.high == nodes[levels[0].ids[i]].high
    ensures Shape(nodes[levels[0].ids[i] := n], levels, 0)
  {
    ReplaceKeepsChains(nodes, levels, 0, i, n);
    DistinctAt(levels, 0, i);
    LinksElsewhere(nodes, nodes[levels[0].ids[i] := n], levels, levels, 0, 0);
  }

  /** Splitting a node of level `l` keeps every chain; only the link from the level above is left open. */
  lemma SplitStep(nodes: seq<Node>, levels: seq<Level>, l: nat, i: nat, left: Node, right: Node, sep: Key)
    requires Shape(nodes, levels, l + 1) && l < |levels| && i < |levels[l].ids| && Inside(levels[l], i, sep)
    requires Halves(nodes[levels[l].ids[i]], left, right, |nodes|, sep)
    requires var nodes' := nodes[levels[l].ids[i] := left] + [right];
      l > 0 ==> LinkOK(nodes', SplitLevel(levels[l], i, |nodes|, sep), levels[l - 1])
    ensures Shape(nodes[levels[l].ids[i] := left] + [right],
                  levels[l := SplitLevel(levels[l], i, |nodes|, sep)], l + 1)
  {
    var nodes' := nodes[levels[l].ids[i] := left] + [right];
    var levels' := levels[l := SplitLevel(levels[l], i, |nodes|, sep)];
    SplitDistinct(nodes, levels, l, i, sep);
    SplitChains(nodes, levels, l, i, left, right, sep);
    LinksElsewhere(nodes, nodes', levels, levels', l, l + 1);
  }

  lemma SplitChains(nodes: seq<Node>, levels: seq<Level>, l: nat, i: nat, left: Node, right: Node, sep: Key)
    requires Distinct(levels) && Chains(nodes, levels) && l < |levels| && i < |levels[l].ids|
    requires Inside(levels[l], i, sep) && Halves(nodes[levels[l].ids[i]], left, right, |nodes|, sep)
    ensures Chains(nodes[levels[l].ids[i] := left] + [right], levels[l := SplitLevel(levels[l], i, |nodes|, sep)])
    ensures forall a, k :: 0 <= a < |levels| && a != l && 0 <= k < |levels[a].ids| ==>
      levels[a].ids[k] < |nodes| && (nodes[levels[l].ids[i] := left] + [right])[levels[a].ids[k]] == nodes[levels[a].ids[k]]
  {
    var nodes' := nodes[levels[l].ids[i] := left] + [right];
    var levels' := levels[l := SplitLevel(levels[l], i, |nodes|, sep)];
    DistinctAt(levels, l, i);
    SplitChain(nodes, levels[l], l == 0, i, left, right, sep);
    forall a | 0 <= a < |levels'| && a != l
      ensures ChainOK(nodes', levels'[a], a == 0)
      ensures forall k :: 0 <= k < |levels[a].ids| ==>
        levels[a].ids[k] < |nodes| && nodes'[levels[a].ids[k]] == nodes[levels[a].ids[k]]
    {
      ChainUnchanged(nodes, nodes', levels[a], a == 0);
    }
  }

  lemma SplitLevelKeeps(levels: seq<Level>, l: nat, i: nat, newId: NodeId, sep: Key)
    requires l < |levels| && WellFormed(levels[l]) && i < |levels[l].ids|
    ensures Keeps(levels, levels[l := SplitLevel(levels[l], i, newId, sep)])
  {
    var levels' := levels[l := SplitLevel(levels[l], i, newId, sep)];
    forall a, id, low | 0 <= a < |levels| && At(levels[a], id, low) ensures At(levels'[a], id, low) {
      if a == l {
        SplitKeeps(levels[l], i, newId, sep, id, low);
      }
    }
  }

  // ---------------------------------------------------------------- internal nodes

  function InsertAt<T>(s: seq<T>, i: nat, x: T): (r: seq<T>)
    requires i <= |s|
    ensures |r| == |s| + 1 && r[i] == x
  {
    s[..i] + [x] + s[i..]
  }

  lemma InsertInMiddle<T>(a: seq<T>, b: seq<T>, c: seq<T>, i: nat, x: T)
    requires i <= |b|
    ensures InsertAt(a + b + c, |a| + i, x) == a + InsertAt(b, i, x) + c
  {
  }

  /** The internal node after its child `j` split into itself and `newId`. */
  function WithChild(n: Node, j: nat, sep: Key, newId: NodeId): (r: Node)
    requires n.Internal? && |n.children| == |n.keys| + 1 && j <= |n.keys|
    ensures r.Internal? && |r.children| == |r.keys| + 1 == |n.keys| + 2
  {
    n.(keys := InsertAt(n.keys, j, sep), children := InsertAt(n.children, j + 1, newId))
  }

  /** What lies to the left and right of the `i`-th node's own children and keys, one level down. */
  datatype Around = Around(ids0: seq<NodeId>, ids1: seq<NodeId>, seps0: seq<Key>, seps1: seq<Key>)

  ghost function AroundNode(nodes: seq<Node>, up: Level, i: nat): Around
    requires |up.ids| == |up.seps| + 1 && AllInternal(nodes, up.ids) && i < |up.ids|
  {
    Around(FlatChildren(nodes, up.ids[..i]), FlatChildren(nodes, up.ids[i + 1..]),
           KeysThenSep(nodes, up.ids[..i], up.seps[..i]), SepThenKeys(nodes, up.ids[i + 1..], up.seps[i..]))
  }

  ghost predicate ReadsAs(low: Level, c: Around, ids: seq<NodeId>, keys: seq<Key>) {
    low.ids == c.ids0 + ids + c.ids1 && low.seps == c.seps0 + keys + c.seps1
  }

  /** A level is linked to the one above exactly when it reads, around any one node, as that node's own content. */
  lemma LinkCut(nodes: seq<Node>, up: Level, low: Level, i: nat)
    requires |up.ids| == |up.seps| + 1 && AllInternal(nodes, up.ids) && i < |up.ids|
    ensures LinkOK(nodes, up, low) <==>
      ReadsAs(low, AroundNode(nodes, up, i), nodes[up.ids[i]].children, nodes[up.ids[i]].keys)
    ensures |AroundNode(nodes, up, i).ids0| == |AroundNode(nodes, up, i).seps0| == Offset(nodes, up, i)
  {
    FlatChildrenAt(nodes, up.ids, i);
    SepsBelowAt(nodes, up, i);
    RunLengths(nodes, up.ids[..i], up.seps[..i]);
  }

  lemma AroundUnchanged(nodes: seq<Node>, nodes': seq<Node>, up: Level, i: nat)
    requires |up.ids| == |up.seps| + 1 && AllInternal(nodes, up.ids) && i < |up.ids| && |nodes| <= |nodes'|
    requires forall a :: 0 <= a < |up.ids| && a != i ==> nodes'[up.ids[a]] == nodes[up.ids[a]]
    requires nodes'[up.ids[i]].Internal? && |nodes'[up.ids[i]].children| == |nodes'[up.ids[i]].keys| + 1
    ensures AllInternal(nodes', up.ids)
    ensures AroundNode(nodes', up, i) == AroundNode(nodes, up, i)
  {
    RunsUnchanged(nodes, nodes', up.ids[..i], up.seps[..i]);
    RunsUnchanged(nodes, nodes', up.ids[i + 1..], up.seps[i..]);
  }

  lemma SplitReadsAs(low: Level, c: Around, ids: seq<NodeId>, keys: seq<Key>, j: nat, newId: NodeId, sep: Key)
    requires ReadsAs(low, c, ids, keys) && |c.ids0| == |c.seps0| && |ids| == |keys| + 1 && j < |ids|
    requires |low.ids| == |low.seps| + 1
    ensures ReadsAs(SplitLevel(low, |c.ids0| + j, newId, sep), c, InsertAt(ids, j + 1, newId), InsertAt(keys, j, sep))
  {
    InsertInMiddle(c.ids0, ids, c.ids1, j + 1, newId);
    InsertInMiddle(c.seps0, keys, c.seps1, j, sep);
  }

  /** Recording a split child in its parent closes the link again. */
  lemma AdoptChild(nodes: seq<Node>, nodes': seq<Node>, up: Level, low: Level, i: nat, j: nat, sep: Key, newId: NodeId)
    requires LinkOK(nodes, up, low) && |low.ids| == |low.seps| + 1 && i < |up.ids| && |nodes| <= |nodes'|
    requires j <= |nodes[up.ids[i]].keys|
    requires forall a :: 0 <= a < |up.ids| && a != i ==> nodes'[up.ids[a]] == nodes[up.ids[a]]
    requires nodes'[up.ids[i]] == WithChild(nodes[up.ids[i]], j, sep, newId)
    ensures Offset(nodes, up, i) + j < |low.ids|
    ensures LinkOK(nodes', up, SplitLevel(low, Offset(nodes, up, i) + j, newId, sep))
  {
    var x := nodes[up.ids[i]];
    LinkCut(nodes, up, low, i);
    SplitReadsAs(low, AroundNode(nodes, up, i), x.children, x.keys, j, newId, sep);
    AroundUnchanged(nodes, nodes', up, i);
    LinkCut(nodes', up, SplitLevel(low, Offset(nodes, up, i) + j, newId, sep), i);
  }

  lemma SplitAllInternal(nodes: seq<Node>, nodes': seq<Node>, up: Level, i: nat, sep: Key)
    requires |up.ids| == |up.seps| + 1 && AllInternal(nodes, up.ids) && i < |up.ids| && |nodes'| == |nodes| + 1
    requires forall a :: 0 <= a < |up.ids| && a != i ==> nodes'[up.ids[a]] == nodes[up.ids[a]]
    requires AllInternal(nodes', [up.ids[i], |nodes|])
    ensures AllInternal(nodes', SplitLevel(up, i, |nodes|, sep).ids)
  {
    var ids := SplitLevel(up, i, |nodes|, sep).ids;
    forall a | 0 <= a < |ids|
      ensures ids[a] < |nodes'| && nodes'[ids[a]].Internal? && |nodes'[ids[a]].children| == |nodes'[ids[a]].keys| + 1
    {
      var pair := [up.ids[i], |nodes|];
      assert pair[0] == up.ids[i] && pair[1] == |nodes|;
      assert ids[a] == if a == i + 1 then |nodes| else if a <= i then up.ids[a] else up.ids[a - 1];
    }
  }

  /** The level above a split node: the new node and its keys join what lies to the right. */
  lemma AroundSplit(nodes: seq<Node>, nodes': seq<Node>, up: Level, i: nat, sep: Key)
    requires |up.ids| == |up.seps| + 1 && AllInternal(nodes, up.ids) && i < |up.ids| && |nodes'| == |nodes| + 1
    requires forall a :: 0 <= a < |up.ids| && a != i ==> nodes'[up.ids[a]] == nodes[up.ids[a]]
    requires AllInternal(nodes', SplitLevel(up, i, |nodes|, sep).ids)
    ensures var c, r := AroundNode(nodes, up, i), nodes'[|nodes|];
      r.Internal? && AroundNode(nodes', SplitLevel(up, i, |nodes|, sep), i)
      == Around(c.ids0, r.children + c.ids1, c.seps0, [sep] + r.keys + c.seps1)
  {
    SplitRuns(up, i, |nodes|, sep);
    RunsUnchanged(nodes, nodes', up.ids[..i], up.seps[..i]);
    RunsUnchanged(nodes, nodes', up.ids[i + 1..], up.seps[i..]);
  }

  lemma HalvesReadAs(low: Level, c: Around, x: Node, l: Node, r: Node, sep: Key)
    requires x.Internal? && l.Internal? && r.Internal? && ReadsAs(low, c, x.children, x.keys)
    requires x.children == l.children + r.children && x.keys == l.keys + [sep] + r.keys
    ensures ReadsAs(low, Around(c.ids0, r.children + c.ids1, c.seps0, [sep] + r.keys + c.seps1), l.children, l.keys)
  {
  }

  /** Cutting an internal node in two around one of its keys keeps the level below it. */
  lemma SplitInternalLink(nodes: seq<Node>, nodes': seq<Node>, up: Level, low: Level, i: nat, sep: Key)
    requires LinkOK(nodes, up, low) && i < |up.ids| && |nodes'| == |nodes| + 1
    requires forall a :: 0 <= a < |up.ids| && a != i ==> nodes'[up.ids[a]] == nodes[up.ids[a]]
    requires AllInternal(nodes', [up.ids[i], |nodes|])
    requires var x, l, r := nodes[up.ids[i]], nodes'[up.ids[i]], nodes'[|nodes|];
      && l.Internal? && r.Internal?
      && x.children == l.children + r.children && x.keys == l.keys + [sep] + r.keys
    ensures LinkOK(nodes', SplitLevel(up, i, |nodes|, sep), low)
  {
    LinkCut(nodes, up, low, i);
    SplitAllInternal(nodes, nodes', up, i, sep);
    AroundSplit(nodes, nodes', up, i, sep);
    HalvesReadAs(low, AroundNode(nodes, up, i), nodes[up.ids[i]], nodes'[up.ids[i]], nodes'[|nodes|], sep);
    LinkCut(nodes', SplitLevel(up, i, |nodes|, sep), low, i);
  }

  lemma SplitRuns(lv: Level, i: nat, newId: NodeId, sep: Key)
    requires |lv.ids| == |lv.seps| + 1 && i < |lv.ids|
    ensures var lv' := SplitLevel(lv, i, newId, sep);
      && lv'.ids[..i] == lv.ids[..i] && lv'.seps[..i] == lv.seps[..i]
      && lv'.ids[i] == lv.ids[i] && lv'.ids[i + 1] == newId && lv'.seps[i] == sep
      && lv'.ids[i + 1..] == [newId] + lv.ids[i + 1..] && lv'.seps[i..] == [sep] + lv.seps[i..]
      && lv'.ids[i + 1..][1..] == lv.ids[i + 1..] && lv'.seps[i..][1..] == lv.seps[i..]
  {
  }
}
