/** What the leaves store, how full the nodes are, and the bound on the height that follows. */
module BLinkContents {
  import opened BLinkModel
  import opened BLinkInvariant

  // ---------------------------------------------------------------- stored bindings

  lemma CoversUnique(lv: Level, i: nat, j: nat, key: Key)
    requires WellFormed(lv) && i < |lv.ids| && j < |lv.ids| && Covers(lv, i, key) && AtOrLeftOf(lv, j, key)
    ensures j <= i
    ensures Covers(lv, j, key) ==> i == j
  {
  }

  ghost predicate SameOutside(lv: Level, i: nat, m: map<Key, Value>, m': map<Key, Value>)
    requires WellFormed(lv) && i < |lv.ids|
  {
    forall k :: !Covers(lv, i, k) ==> (k in m <==> k in m') && (k in m ==> m[k] == m'[k])
  }

  /** Replacing one leaf by another that holds the new bindings of its own key range. */
  lemma StoreInLeaf(nodes: seq<Node>, lv: Level, m: map<Key, Value>, i: nat, n: Node, m': map<Key, Value>)
    requires ChainOK(nodes, lv, true) && Stores(nodes, lv, m) && i < |lv.ids|
    requires forall a :: 0 <= a < |lv.ids| && lv.ids[a] == lv.ids[i] ==> a == i
    requires LeafOK(n, m') && n.right == nodes[lv.ids[i]].right && n.high == nodes[lv.ids[i]].high
    requires forall j :: 0 <= j < |n.keys| ==> Covers(lv, i, n.keys[j])
    requires forall k :: k in m' && Covers(lv, i, k) ==> k in n.keys
    requires SameOutside(lv, i, m, m')
    ensures ChainOK(nodes[lv.ids[i] := n], lv, true)
    ensures Stores(nodes[lv.ids[i] := n], lv, m')
  {
    var nodes' := nodes[lv.ids[i] := n];
    forall a | 0 <= a < |lv.ids|
      ensures LeafOK(nodes'[lv.ids[a]], m')
      ensures forall j :: 0 <= j < |nodes'[lv.ids[a]].keys| ==> Covers(lv, a, nodes'[lv.ids[a]].keys[j])
    {
      if a != i {
        var leaf := nodes[lv.ids[a]];
        forall j | 0 <= j < |leaf.keys|
          ensures Covers(lv, a, leaf.keys[j]) && leaf.keys[j] in m' && m'[leaf.keys[j]] == leaf.vals[j]
        {
          CoversElsewhere(lv, a, i, leaf.keys[j]);
        }
      }
    }
    forall k, a | k in m' && 0 <= a < |lv.ids| && Covers(lv, a, k) ensures k in nodes'[lv.ids[a]].keys {
      if a != i {
        CoversElsewhere(lv, a, i, k);
      }
    }
  }

  lemma CoversElsewhere(lv: Level, i: nat, j: nat, key: Key)
    requires WellFormed(lv) && i < |lv.ids| && j < |lv.ids| && i != j && Covers(lv, i, key)
    ensures !Covers(lv, j, key)
  {
    if Covers(lv, j, key) {
      CoversUnique(lv, i, j, key);
    }
  }

  function RemoveAt<T>(s: seq<T>, i: nat): seq<T>
    requires i < |s|
  {
    s[..i] + s[i + 1..]
  }

  function LeafWith(n: Node, p: nat, key: Key, value: Value): Node
    requires n.Leaf? && p <= |n.keys| == |n.vals|
  {
    n.(keys := InsertAt(n.keys, p, key), vals := InsertAt(n.vals, p, value))
  }

  lemma InsertAtIndex<T>(s: seq<T>, p: nat, x: T, j: nat)
    requires p <= |s| && j <= |s|
    ensures InsertAt(s, p, x)[j] == if j < p then s[j] else if j == p then x else s[j - 1]
  {
  }

  lemma InsertAtElements<T>(s: seq<T>, p: nat, x: T)
    requires p <= |s|
    ensures forall e :: e in InsertAt(s, p, x) <==> e in s || e == x
  {
    assert s == s[..p] + s[p..];
  }

  lemma IncreasingInsert(keys: seq<Key>, key: Key)
    requires Increasing(keys) && key !in keys
    ensures Increasing(InsertAt(keys, LowerBound(keys, key), key))
  {
    var p := LowerBound(keys, key);
    var keys' := InsertAt(keys, p, key);
    forall a, b | 0 <= a < b < |keys'| ensures keys'[a] < keys'[b] {
      InsertAtIndex(keys, p, key, a);
      InsertAtIndex(keys, p, key, b);
    }
  }

  lemma LeafInsertOK(n: Node, m: map<Key, Value>, key: Key, value: Value)
    requires LeafOK(n, m) && key !in n.keys
    ensures var n' := LeafWith(n, LowerBound(n.keys, key), key, value);
      && LeafOK(n', m[key := value])
      && (forall k :: k in n'.keys <==> k in n.keys || k == key)
  {
    var p := LowerBound(n.keys, key);
    var n' := LeafWith(n, p, key, value);
    IncreasingInsert(n.keys, key);
    InsertAtElements(n.keys, p, key);
    forall j | 0 <= j < |n'.keys| ensures n'.keys[j] in m[key := value] && m[key := value][n'.keys[j]] == n'.vals[j] {
      InsertAtIndex(n.keys, p, key, j);
      InsertAtIndex(n.vals, p, value, j);
    }
  }

  lemma LeafReplaceOK(n: Node, m: map<Key, Value>, p: nat, value: Value)
    requires LeafOK(n, m) && p < |n.keys|
    ensures LeafOK(n.(vals := n.vals[p := value]), m[n.keys[p] := value])
  {
  }

  lemma LeafRemoveOK(n: Node, m: map<Key, Value>, p: nat)
    requires LeafOK(n, m) && p < |n.keys|
    ensures var n' := n.(keys := RemoveAt(n.keys, p), vals := RemoveAt(n.vals, p));
      && LeafOK(n', m - {n.keys[p]})
      && (forall k :: k in n'.keys <==> k in n.keys && k != n.keys[p])
  {
    var n' := n.(keys := RemoveAt(n.keys, p), vals := RemoveAt(n.vals, p));
    assert forall j :: 0 <= j < |n'.keys| ==> n'.keys[j] == n.keys[if j < p then j else j + 1];
    forall k | k in n.keys && k != n.keys[p] ensures k in n'.keys {
      var j :| 0 <= j < |n.keys| && n.keys[j] == k;
      assert n'.keys[if j < p then j else j - 1] == k;
    }
  }

  /** Splitting a leaf at one of its keys moves no binding out of the leaf that covers it. */
  lemma StoreSplit(nodes: seq<Node>, lv: Level, m: map<Key, Value>, i: nat, c: nat, left: Node, right: Node)
    requires ChainOK(nodes, lv, true) && Stores(nodes, lv, m) && i < |lv.ids| && 0 < c < |nodes[lv.ids[i]].keys|
    requires forall a :: 0 <= a < |lv.ids| && lv.ids[a] == lv.ids[i] ==> a == i
    requires var n := nodes[lv.ids[i]];
      && left.Leaf? && left.keys == n.keys[..c] && left.vals == n.vals[..c]
      && right.Leaf? && right.keys == n.keys[c..] && right.vals == n.vals[c..]
      && Halves(n, left, right, |nodes|, n.keys[c])
    ensures Inside(lv, i, nodes[lv.ids[i]].keys[c])
    ensures var nodes', lv' := nodes[lv.ids[i] := left] + [right], SplitLevel(lv, i, |nodes|, nodes[lv.ids[i]].keys[c]);
      ChainOK(nodes', lv', true) && Stores(nodes', lv', m)
  {
    var n := nodes[lv.ids[i]];
    var sep := n.keys[c];
    assert Covers(lv, i, n.keys[0]) && Covers(lv, i, sep);
    SplitChain(nodes, lv, true, i, left, right, sep);
    var nodes', lv' := nodes[lv.ids[i] := left] + [right], SplitLevel(lv, i, |nodes|, sep);
    HalfLeaves(n, m, c, left, right);
    forall a | 0 <= a < |lv'.ids|
      ensures LeafStores(lv', a, nodes'[lv'.ids[a]], m)
    {
      var b := if a <= i then a else a - 1;
      SplitCovers(lv, i, |nodes|, sep, a, b);
      assert LeafStores(lv, b, nodes[lv.ids[b]], m);
    }
  }

  /** The share of `Stores` that falls on one leaf. */
  ghost predicate LeafStores(lv: Level, a: nat, n: Node, m: map<Key, Value>)
    requires WellFormed(lv) && a < |lv.ids|
  {
    && LeafOK(n, m)
    && (forall k :: k in n.keys ==> Covers(lv, a, k))
    && (forall k :: k in m && Covers(lv, a, k) ==> k in n.keys)
  }

  lemma HalfLeaves(n: Node, m: map<Key, Value>, c: nat, left: Node, right: Node)
    requires LeafOK(n, m) && c < |n.keys|
    requires left.Leaf? && left.keys == n.keys[..c] && left.vals == n.vals[..c]
    requires right.Leaf? && right.keys == n.keys[c..] && right.vals == n.vals[c..]
    ensures LeafOK(left, m) && LeafOK(right, m)
    ensures forall k :: k in left.keys <==> k in n.keys && k < n.keys[c]
    ensures forall k :: k in right.keys <==> k in n.keys && n.keys[c] <= k
  {
    assert n.keys == left.keys + right.keys;
  }

  /** Key ranges after a split: the split node's range is cut at `sep`, all others are as before. */
  lemma SplitCovers(lv: Level, i: nat, newId: NodeId, sep: Key, a: nat, b: nat)
    requires WellFormed(lv) && i < |lv.ids| && Inside(lv, i, sep) && a <= |lv.ids|
    requires b == if a <= i then a else a - 1
    ensures var lv' := SplitLevel(lv, i, newId, sep);
      && WellFormed(lv')
      && lv'.ids[a] == (if a == i + 1 then newId else lv.ids[b])
      && (forall k: Key :: Covers(lv', a, k) <==> Covers(lv, b, k) && (a == i ==> k < sep) && (a == i + 1 ==> sep <= k))
  {
    var lv' := SplitLevel(lv, i, newId, sep);
    SplitWellFormed(lv, i, newId, sep);
    SplitIndex(lv, i, newId, sep, a);
    assert a > 0 ==> lv'.seps[a - 1] == if a - 1 < i then lv.seps[a - 1] else if a - 1 == i then sep else lv.seps[a - 2];
    assert a < |lv'.seps| ==> lv'.seps[a] == if a < i then lv.seps[a] else if a == i then sep else lv.seps[a - 1];
  }

  // ---------------------------------------------------------------- node sizes

  /** Keys a leaf holds beyond the 33 that a fresh half can hold: each took one insert since. */
  ghost function Excess(n: Node): nat {
    if |n.keys| > SPLIT_AT + 1 then |n.keys| - (SPLIT_AT + 1) else 0
  }

  ghost function TotalExcess(nodes: seq<Node>, ids: seq<NodeId>): nat
    requires forall i :: 0 <= i < |ids| ==> ids[i] < |nodes|
  {
    if ids == [] then 0 else Excess(nodes[ids[0]]) + TotalExcess(nodes, ids[1..])
  }

  lemma {:induction false} TotalExcessAt(nodes: seq<Node>, ids: seq<NodeId>, i: nat)
    requires (forall k :: 0 <= k < |ids| ==> ids[k] < |nodes|) && i < |ids|
    ensures TotalExcess(nodes, ids) == TotalExcess(nodes, ids[..i]) + Excess(nodes[ids[i]]) + TotalExcess(nodes, ids[i + 1..])
  {
    if i == 0 {
      assert ids[..0] == [];
    } else {
      TotalExcessAt(nodes, ids[1..], i - 1);
      assert ids[1..][..i - 1] == ids[..i][1..] && ids[1..][i..] == ids[i + 1..];
    }
  }

  lemma {:induction false} TotalExcessUnchanged(nodes: seq<Node>, nodes': seq<Node>, ids: seq<NodeId>)
    requires |nodes| <= |nodes'| && forall k :: 0 <= k < |ids| ==> ids[k] < |nodes| && nodes'[ids[k]] == nodes[ids[k]]
    ensures TotalExcess(nodes', ids) == TotalExcess(nodes, ids)
  {
    if ids != [] {
      TotalExcessUnchanged(nodes, nodes', ids[1..]);
    }
  }

  lemma ReplaceExcess(nodes: seq<Node>, nodes': seq<Node>, ids: seq<NodeId>, i: nat)
    requires |nodes| <= |nodes'| && i < |ids| && forall k :: 0 <= k < |ids| ==> ids[k] < |nodes|
    requires forall k :: 0 <= k < |ids| && k != i ==> nodes'[ids[k]] == nodes[ids[k]]
    ensures TotalExcess(nodes', ids) - Excess(nodes'[ids[i]]) == TotalExcess(nodes, ids) - Excess(nodes[ids[i]])
  {
    TotalExcessAt(nodes, ids, i);
    TotalExcessAt(nodes', ids, i);
    TotalExcessUnchanged(nodes, nodes', ids[..i]);
    TotalExcessUnchanged(nodes, nodes', ids[i + 1..]);
  }

  lemma SplitExcess(nodes: seq<Node>, nodes': seq<Node>, lv: Level, i: nat, sep: Key, ids: seq<NodeId>)
    requires |lv.ids| == |lv.seps| + 1 && i < |lv.ids| && |nodes'| == |nodes| + 1
    requires forall k :: 0 <= k < |lv.ids| ==> lv.ids[k] < |nodes|
    requires forall k :: 0 <= k < |lv.ids| && k != i ==> nodes'[lv.ids[k]] == nodes[lv.ids[k]]
    requires ids == SplitLevel(lv, i, |nodes|, sep).ids && forall k :: 0 <= k < |ids| ==> ids[k] < |nodes'|
    ensures TotalExcess(nodes', ids) - Excess(nodes'[lv.ids[i]]) - Excess(nodes'[|nodes|])
         == TotalExcess(nodes, lv.ids) - Excess(nodes[lv.ids[i]])
  {
    SplitRuns(lv, i, |nodes|, sep);
    var after := [|nodes|] + lv.ids[i + 1..];
    assert ids[..i] == lv.ids[..i] && ids[i] == lv.ids[i] && ids[i + 1..] == after;
    TotalExcessAt(nodes', ids, i);
    TotalExcessAt(nodes, lv.ids, i);
    TotalExcessUnchanged(nodes, nodes', lv.ids[..i]);
    TotalExcessUnchanged(nodes, nodes', lv.ids[i + 1..]);
    assert after[0] == |nodes| && after[1..] == lv.ids[i + 1..];
  }

  // ---------------------------------------------------------------- the height bound

  function Pow33(n: nat): (r: nat)
    ensures r >= 1
  {
    if n == 0 then 1 else 33 * Pow33(n - 1)
  }

  lemma {:induction false} FlatChildrenAtLeast(nodes: seq<Node>, ids: seq<NodeId>, d: nat)
    requires AllInternal(nodes, ids)
    requires forall i :: 0 <= i < |ids| ==> |nodes[ids[i]].keys| + 1 >= d
    ensures |FlatChildren(nodes, ids)| >= d * |ids|
  {
    if ids != [] {
      FlatChildrenAtLeast(nodes, ids[1..], d);
      assert d * |ids| == d + d * |ids[1..]|;
    }
  }

  lemma LevelWidth(nodes: seq<Node>, levels: seq<Level>, a: nat)
    requires Shape(nodes, levels, 0) && Sizes(nodes, levels, -1) && 0 < a < |levels|
    ensures |levels[a - 1].ids| >= if |levels[a].ids| == 1 then 2 else 33 * |levels[a].ids|
  {
    var up := levels[a];
    var alone := |up.ids| == 1;
    assert LinkOK(nodes, up, levels[a - 1]);
    assert forall i :: 0 <= i < |up.ids| ==> SizeOK(nodes[up.ids[i]], a, alone);
    FlatChildrenAtLeast(nodes, up.ids, if alone then 2 else 33);
  }

  /** Level widths from the leaves up: below a single root, the `d`-th level down has at least 2 * 33^(d-1) nodes. */
  lemma {:induction false} WidthsGrow(w: seq<nat>, d: nat)
    requires 1 <= d < |w| && w[|w| - 1] == 1
    requires forall a :: 0 < a < |w| ==> w[a - 1] >= if w[a] == 1 then 2 else 33 * w[a]
    ensures w[|w| - 1 - d] >= 2 * Pow33(d - 1)
  {
    var a := |w| - d;
    assert w[a - 1] >= if w[a] == 1 then 2 else 33 * w[a];
    if d > 1 {
      WidthsGrow(w, d - 1);
    }
  }

  /** A tree with `h` internal levels has at least 2 * 33^(h-1) leaves, however many keys were deleted. */
  lemma LeafCount(nodes: seq<Node>, levels: seq<Level>)
    requires Shape(nodes, levels, 0) && Sizes(nodes, levels, -1) && |levels| > 1 && |levels[|levels| - 1].ids| == 1
    ensures |levels[0].ids| >= 2 * Pow33(|levels| - 2)
  {
    var w := seq(|levels|, a requires 0 <= a < |levels| => |levels[a].ids|);
    forall a | 0 < a < |w| ensures w[a - 1] >= if w[a] == 1 then 2 else 33 * w[a] {
      LevelWidth(nodes, levels, a);
    }
    WidthsGrow(w, |levels| - 1);
  }

  /**
    Height bound: after `inserted` inserts of new keys and any number of deletes, a tree with
    `h` internal levels satisfies 2 * 33^(h-1) <= 1 + inserted / 32.
  */
  lemma HeightBound(nodes: seq<Node>, root: NodeId, levels: seq<Level>, m: map<Key, Value>, inserted: nat)
    requires Inv(nodes, root, levels, m) && |levels| > 1
    requires TotalExcess(nodes, levels[0].ids) + SPLIT_AT * |levels[0].ids| <= inserted + SPLIT_AT
    ensures 2 * Pow33(|levels| - 2) <= 1 + inserted / 32
  {
    LeafCount(nodes, levels);
    var leaves, least := |levels[0].ids|, 2 * Pow33(|levels| - 2);
    assert 32 * (least - 1) <= 32 * (leaves - 1) <= inserted;
  }
}
