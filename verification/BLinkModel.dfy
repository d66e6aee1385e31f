/**
  The B-Link tree as a value: the node arena, a ghost description of its levels,
  and the structural invariant that every operation of `BLinkTree.BTree` keeps.

  A level is the left-to-right list of its node ids together with the separators
  between neighbours; node `i` of a level covers the keys from separator `i - 1`
  (inclusive) up to separator `i` (exclusive).
*/
module BLinkModel {
  import opened Common

  type Key = nat // a u64 that is only ever compared
  type Value = seq<byte>
  type NodeId = nat

  const NODE_CAPACITY: nat := 64
  /** Where both kinds of split cut a node: NODE_CAPACITY.div_ceil(2). */
  const SPLIT_AT: nat := 32

  datatype Node =
    | Leaf(keys: seq<Key>, vals: seq<Value>, right: Option<NodeId>, high: Option<Key>)
    | Internal(keys: seq<Key>, children: seq<NodeId>, right: Option<NodeId>, high: Option<Key>)

  datatype Level = Level(ids: seq<NodeId>, seps: seq<Key>)

  predicate Increasing(s: seq<Key>) {
    forall i, j :: 0 <= i < j < |s| ==> s[i] < s[j]
  }

  // ---------------------------------------------------------------- searching

  /** The insertion point that binary search reports: how many leading keys are below `key`. */
  function LowerBound(keys: seq<Key>, key: Key): (i: nat)
    ensures i <= |keys|
    ensures forall j :: 0 <= j < i ==> keys[j] < key
    ensures i < |keys| ==> key <= keys[i]
  {
    if keys == [] || key <= keys[0] then 0 else 1 + LowerBound(keys[1..], key)
  }

  /** Which child of an internal node a search for `key` follows. */
  function ChildIndex(keys: seq<Key>, key: Key): (i: nat)
    requires Increasing(keys)
    ensures i <= |keys|
    ensures i > 0 ==> keys[i - 1] <= key
    ensures i < |keys| ==> key < keys[i]
  {
    var i := LowerBound(keys, key);
    if i < |keys| && keys[i] == key then i + 1 else i
  }

  // ---------------------------------------------------------------- levels

  ghost predicate WellFormed(lv: Level) {
    |lv.ids| == |lv.seps| + 1 && Increasing(lv.seps)
  }

  /** `key` belongs to the `i`-th node of the level. */
  ghost predicate Covers(lv: Level, i: nat, key: Key)
    requires WellFormed(lv) && i < |lv.ids|
  {
    (i > 0 ==> lv.seps[i - 1] <= key) && (i < |lv.seps| ==> key < lv.seps[i])
  }

  /** The `i`-th node of the level is `key`'s node or lies to its left. */
  ghost predicate AtOrLeftOf(lv: Level, i: nat, key: Key)
    requires WellFormed(lv) && i < |lv.ids|
  {
    i > 0 ==> lv.seps[i - 1] <= key
  }

  ghost function RightOf(lv: Level, i: nat): Option<NodeId> {
    if i + 1 < |lv.ids| then Some(lv.ids[i + 1]) else None
  }

  ghost function HighOf(lv: Level, i: nat): Option<Key> {
    if i < |lv.seps| then Some(lv.seps[i]) else None
  }

  /** Right-links and high keys form the level's chain. */
  ghost predicate ChainOK(nodes: seq<Node>, lv: Level, leaves: bool) {
    && WellFormed(lv)
    && (forall i :: 0 <= i < |lv.ids| ==> lv.ids[i] < |nodes|)
    && (forall i :: 0 <= i < |lv.ids| ==>
          && nodes[lv.ids[i]].Leaf? == leaves
          && nodes[lv.ids[i]].right == RightOf(lv, i)
          && nodes[lv.ids[i]].high == HighOf(lv, i))
  }

  /** The children of a run of internal nodes, left to right. */
  ghost function FlatChildren(nodes: seq<Node>, ids: seq<NodeId>): seq<NodeId>
    requires AllInternal(nodes, ids)
  {
    if ids == [] then [] else nodes[ids[0]].children + FlatChildren(nodes, ids[1..])
  }

  /** Keys of a run of nodes, each followed by the separator to its right. */
  ghost function KeysThenSep(nodes: seq<Node>, ids: seq<NodeId>, seps: seq<Key>): seq<Key>
    requires AllInternal(nodes, ids) && |ids| == |seps|
  {
    if ids == [] then [] else nodes[ids[0]].keys + [seps[0]] + KeysThenSep(nodes, ids[1..], seps[1..])
  }

  /** Keys of a run of nodes, each preceded by the separator to its left. */
  ghost function SepThenKeys(nodes: seq<Node>, ids: seq<NodeId>, seps: seq<Key>): seq<Key>
    requires AllInternal(nodes, ids) && |ids| == |seps|
  {
    if ids == [] then [] else [seps[0]] + nodes[ids[0]].keys + SepThenKeys(nodes, ids[1..], seps[1..])
  }

  ghost predicate AllInternal(nodes: seq<Node>, ids: seq<NodeId>) {
    forall i :: 0 <= i < |ids| ==>
      ids[i] < |nodes| && nodes[ids[i]].Internal? && |nodes[ids[i]].children| == |nodes[ids[i]].keys| + 1
  }

  /** `low` is exactly the level below `up`: same children, same separators. */
  ghost predicate LinkOK(nodes: seq<Node>, up: Level, low: Level) {
    && |up.ids| == |up.seps| + 1
    && AllInternal(nodes, up.ids)
    && low.ids == FlatChildren(nodes, up.ids)
    && low.seps == nodes[up.ids[0]].keys + SepThenKeys(nodes, up.ids[1..], up.seps)
  }

  // ---------------------------------------------------------------- splitting a run at one node

  lemma {:induction false} FlatChildrenAt(nodes: seq<Node>, ids: seq<NodeId>, i: nat)
    requires AllInternal(nodes, ids) && i < |ids|
    ensures FlatChildren(nodes, ids)
         == FlatChildren(nodes, ids[..i]) + nodes[ids[i]].children + FlatChildren(nodes, ids[i + 1..])
  {
    if i == 0 {
      assert ids[..0] == [];
    } else {
      FlatChildrenAt(nodes, ids[1..], i - 1);
      assert ids[1..][..i - 1] == ids[..i][1..] && ids[1..][i..] == ids[i + 1..];
      assert ids[..i][0] == ids[0];
    }
  }

  lemma {:induction false} KeysThenSepAppend(nodes: seq<Node>, ids: seq<NodeId>, seps: seq<Key>)
    requires AllInternal(nodes, ids) && |ids| == |seps| > 0
    ensures var n := |ids| - 1;
      KeysThenSep(nodes, ids, seps) == KeysThenSep(nodes, ids[..n], seps[..n]) + nodes[ids[n]].keys + [seps[n]]
  {
    var n := |ids| - 1;
    if n == 0 {
      assert ids[1..] == [] && ids[..0] == [];
    } else {
      KeysThenSepAppend(nodes, ids[1..], seps[1..]);
      assert ids[1..][..n - 1] == ids[..n][1..] && seps[1..][..n - 1] == seps[..n][1..];
    }
  }

  /** The separators below a level, cut at its `i`-th node. */
  lemma {:induction false} SepsBelowAt(nodes: seq<Node>, lv: Level, i: nat)
    requires |lv.ids| == |lv.seps| + 1 && AllInternal(nodes, lv.ids) && i < |lv.ids|
    ensures nodes[lv.ids[0]].keys + SepThenKeys(nodes, lv.ids[1..], lv.seps)
         == KeysThenSep(nodes, lv.ids[..i], lv.seps[..i]) + nodes[lv.ids[i]].keys
          + SepThenKeys(nodes, lv.ids[i + 1..], lv.seps[i..])
  {
    if i == 0 {
      assert lv.seps[0..] == lv.seps;
    } else {
      SepsBelowAt(nodes, lv, i - 1);
      KeysThenSepAppend(nodes, lv.ids[..i], lv.seps[..i]);
      assert lv.ids[..i][..i - 1] == lv.ids[..i - 1] && lv.seps[..i][..i - 1] == lv.seps[..i - 1];
      assert lv.ids[i..][1..] == lv.ids[i + 1..] && lv.seps[i - 1..][1..] == lv.seps[i..];
    }
  }

  lemma {:induction false} RunLengths(nodes: seq<Node>, ids: seq<NodeId>, seps: seq<Key>)
    requires AllInternal(nodes, ids) && |ids| == |seps|
    ensures |KeysThenSep(nodes, ids, seps)| == |FlatChildren(nodes, ids)|
    ensures var run := KeysThenSep(nodes, ids, seps);
      |ids| > 0 ==> run != [] && run[|run| - 1] == seps[|seps| - 1]
  {
    if ids != [] {
      RunLengths(nodes, ids[1..], seps[1..]);
      KeysThenSepAppend(nodes, ids, seps);
    }
  }

  lemma {:induction false} RunsUnchanged(nodes: seq<Node>, nodes': seq<Node>, ids: seq<NodeId>, seps: seq<Key>)
    requires AllInternal(nodes, ids) && |nodes| <= |nodes'| && |ids| == |seps|
    requires forall i :: 0 <= i < |ids| ==> nodes'[ids[i]] == nodes[ids[i]]
    ensures AllInternal(nodes', ids)
    ensures FlatChildren(nodes', ids) == FlatChildren(nodes, ids)
    ensures KeysThenSep(nodes', ids, seps) == KeysThenSep(nodes, ids, seps)
    ensures SepThenKeys(nodes', ids, seps) == SepThenKeys(nodes, ids, seps)
  {
    if ids != [] {
      RunsUnchanged(nodes, nodes', ids[1..], seps[1..]);
    }
  }

  lemma LinkUnchanged(nodes: seq<Node>, nodes': seq<Node>, up: Level, low: Level)
    requires LinkOK(nodes, up, low) && |nodes| <= |nodes'|
    requires forall i :: 0 <= i < |up.ids| ==> nodes'[up.ids[i]] == nodes[up.ids[i]]
    ensures LinkOK(nodes', up, low)
  {
    RunsUnchanged(nodes, nodes', up.ids[1..], up.seps);
    assert FlatChildren(nodes', up.ids) == FlatChildren(nodes, up.ids) by {
      assert FlatChildren(nodes', up.ids) == nodes'[up.ids[0]].children + FlatChildren(nodes', up.ids[1..]);
    }
  }

  /** The position, one level down, of the first child of the `i`-th node. */
  ghost function Offset(nodes: seq<Node>, lv: Level, i: nat): nat
    requires AllInternal(nodes, lv.ids) && i <= |lv.ids|
  {
    |FlatChildren(nodes, lv.ids[..i])|
  }

  /** Where the keys and children of the `i`-th node sit in the level below. */
  lemma SliceBelow(nodes: seq<Node>, up: Level, low: Level, i: nat)
    requires LinkOK(nodes, up, low) && i < |up.ids|
    ensures var x := nodes[up.ids[i]]; var off := Offset(nodes, up, i);
      && off + |x.children| <= |low.ids| && off + |x.keys| <= |low.seps|
      && low.ids[off..off + |x.children|] == x.children
      && low.seps[off..off + |x.keys|] == x.keys
      && (i > 0 ==> off > 0 && low.seps[off - 1] == up.seps[i - 1])
      && (i < |up.seps| ==> off + |x.keys| < |low.seps| && low.seps[off + |x.keys|] == up.seps[i])
      && (i == 0 ==> off == 0)
      && (i == |up.seps| ==> off + |x.keys| == |low.seps|)
  {
    FlatChildrenAt(nodes, up.ids, i);
    SepsBelowAt(nodes, up, i);
    RunLengths(nodes, up.ids[..i], up.seps[..i]);
    var after := SepThenKeys(nodes, up.ids[i + 1..], up.seps[i..]);
    assert i < |up.seps| ==> after[0] == up.seps[i];
  }

  lemma IncreasingSlice(s: seq<Key>, a: nat, b: nat)
    requires Increasing(s) && a <= b <= |s|
    ensures Increasing(s[a..b])
  {
  }

  /** `keys` sit at `off` in the separators of `low`, between the bounds of a node that covers `key`. */
  lemma CoversBelow(low: Level, off: nat, keys: seq<Key>, key: Key)
    requires WellFormed(low) && off + |keys| <= |low.seps| && Increasing(keys)
    requires forall a :: 0 <= a < |keys| ==> keys[a] == low.seps[off + a]
    requires off > 0 ==> low.seps[off - 1] <= key
    requires off + |keys| < |low.seps| ==> key < low.seps[off + |keys|]
    ensures Covers(low, off + ChildIndex(keys, key), key)
  {
  }

  /** Following the child index from the node that covers `key` reaches the node below that covers it. */
  lemma Descend(nodes: seq<Node>, up: Level, low: Level, i: nat, key: Key)
    requires WellFormed(up) && WellFormed(low) && LinkOK(nodes, up, low)
    requires i < |up.ids| && Covers(up, i, key)
    ensures Increasing(nodes[up.ids[i]].keys)
    ensures var j := ChildIndex(nodes[up.ids[i]].keys, key); var p := Offset(nodes, up, i) + j;
      p < |low.ids| && low.ids[p] == nodes[up.ids[i]].children[j] && Covers(low, p, key)
  {
    var keys := nodes[up.ids[i]].keys;
    var off := Offset(nodes, up, i);
    SliceBelow(nodes, up, low, i);
    IncreasingSlice(low.seps, off, off + |keys|);
    CoversBelow(low, off, keys, key);
  }
}
