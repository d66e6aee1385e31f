/** The arena-backed B-Link tree: every operation refines one on a plain map. */
module BLinkTree {
  import opened Common
  import opened BLinkModel
  import opened BLinkInvariant
  import opened BLinkContents
  import opened BLinkSteps

  ghost function Lookup(m: map<Key, Value>, key: Key): Option<Value> {
    if key in m then Some(m[key]) else None
  }

  lemma EmptyTree()
    ensures Inv([Leaf([], [], None, None)], 0, [Level([0], [])], map[])
    ensures Credit([Leaf([], [], None, None)], Level([0], [])) == SPLIT_AT
  {
    var nodes, levels := [Leaf([], [], None, None)], [Level([0], [])];
    assert levels[0].ids == [0];
    assert Chains(nodes, levels);
    assert TotalExcess(nodes, [0]) == 0;
  }

  /** `out` lists exactly the bindings of `m` with lo <= key < hi, in increasing key order. */
  ghost predicate IsRange(out: seq<(Key, Value)>, m: map<Key, Value>, lo: Key, hi: Key) {
    && (forall x, y :: 0 <= x < y < |out| ==> out[x].0 < out[y].0)
    && (forall x :: 0 <= x < |out| ==> lo <= out[x].0 < hi && out[x].0 in m && m[out[x].0] == out[x].1)
    && (forall k :: k in m && lo <= k < hi ==> (k, m[k]) in out)
  }

  ghost function KeySet(keys: seq<Key>): set<Key> {
    set k | k in keys
  }

  lemma {:induction false} KeySetSize(keys: seq<Key>)
    requires Increasing(keys)
    ensures |KeySet(keys)| == |keys|
  {
    if keys != [] {
      var n := |keys| - 1;
      KeySetSize(keys[..n]);
      assert KeySet(keys) == KeySet(keys[..n]) + {keys[n]};
    }
  }

  /** The keys of `m` that belong to leaves to the left of the `i`-th. */
  ghost function KeysBefore(lv: Level, m: map<Key, Value>, i: nat): set<Key>
    requires WellFormed(lv) && i < |lv.ids|
  {
    set k | k in m && !AtOrLeftOf(lv, i, k)
  }

  lemma KeysUpTo(nodes: seq<Node>, lv: Level, m: map<Key, Value>, i: nat)
    requires ChainOK(nodes, lv, true) && Stores(nodes, lv, m) && i < |lv.ids|
    ensures var keys := nodes[lv.ids[i]].keys;
      && |KeysBefore(lv, m, i) + KeySet(keys)| == |KeysBefore(lv, m, i)| + |keys|
      && (i + 1 < |lv.ids| ==> KeysBefore(lv, m, i + 1) == KeysBefore(lv, m, i) + KeySet(keys))
      && (i + 1 == |lv.ids| ==> m.Keys == KeysBefore(lv, m, i) + KeySet(keys))
  {
    var keys := nodes[lv.ids[i]].keys;
    assert LeafOK(nodes[lv.ids[i]], m);
    KeySetSize(keys);
    assert KeysBefore(lv, m, i) !! KeySet(keys);
    KeysAcross(nodes, lv, m, i);
  }

  lemma KeysAcross(nodes: seq<Node>, lv: Level, m: map<Key, Value>, i: nat)
    requires ChainOK(nodes, lv, true) && Stores(nodes, lv, m) && i < |lv.ids|
    ensures var keys := nodes[lv.ids[i]].keys;
      && (i + 1 < |lv.ids| ==> KeysBefore(lv, m, i + 1) == KeysBefore(lv, m, i) + KeySet(keys))
      && (i + 1 == |lv.ids| ==> m.Keys == KeysBefore(lv, m, i) + KeySet(keys))
  {
    var keys := nodes[lv.ids[i]].keys;
    assert LeafOK(nodes[lv.ids[i]], m);
    assert forall k :: k in m && Covers(lv, i, k) ==> k in keys;
  }

  // ---------------------------------------------------------------- the search path

  /** `id` is the `i`-th node of level `l`, and `key` belongs to it or to a node on its right. */
  ghost predicate OnPath(nodes: seq<Node>, levels: seq<Level>, l: nat, i: nat, id: NodeId, key: Key) {
    && l < |levels| && i < |levels[l].ids| && levels[l].ids[i] == id < |nodes|
    && WellFormed(levels[l]) && AtOrLeftOf(levels[l], i, key)
    && nodes[id].Leaf? == (l == 0)
  }

  predicate GoesRight(n: Node, key: Key) {
    n.high.Some? && key >= n.high.value && n.right.Some?
  }

  lemma Enter(nodes: seq<Node>, levels: seq<Level>, a: nat, id: NodeId, low: Option<Key>, key: Key) returns (i: nat)
    requires Chains(nodes, levels) && a < |levels| && At(levels[a], id, low) && (low.Some? ==> low.value <= key)
    ensures OnPath(nodes, levels, a, i, id, key)
  {
    i :| 0 <= i < |levels[a].ids| && levels[a].ids[i] == id && LowOf(levels[a], i) == low;
    assert ChainOK(nodes, levels[a], a == 0);
  }

  lemma EnterRoot(nodes: seq<Node>, root: NodeId, levels: seq<Level>, m: map<Key, Value>, key: Key)
    requires Inv(nodes, root, levels, m)
    ensures At(levels[|levels| - 1], root, None)
    ensures OnPath(nodes, levels, |levels| - 1, 0, root, key) && !GoesRight(nodes[root], key)
  {
    var top := levels[|levels| - 1];
    assert ChainOK(nodes, top, |levels| == 1);
    assert top.ids[0] == root && LowOf(top, 0) == None;
  }

  lemma MoveRight(nodes: seq<Node>, levels: seq<Level>, l: nat, i: nat, id: NodeId, key: Key)
    requires Chains(nodes, levels) && OnPath(nodes, levels, l, i, id, key) && GoesRight(nodes[id], key)
    ensures OnPath(nodes, levels, l, i + 1, nodes[id].right.value, key)
  {
    assert ChainOK(nodes, levels[l], l == 0);
  }

  lemma StayHere(nodes: seq<Node>, levels: seq<Level>, l: nat, i: nat, id: NodeId, key: Key)
    requires Chains(nodes, levels) && OnPath(nodes, levels, l, i, id, key)
    ensures !GoesRight(nodes[id], key) <==> Covers(levels[l], i, key)
  {
    assert ChainOK(nodes, levels[l], l == 0);
  }

  lemma MoveDown(nodes: seq<Node>, levels: seq<Level>, l: nat, i: nat, id: NodeId, key: Key) returns (p: nat)
    requires Chains(nodes, levels) && Links(nodes, levels, 0) && OnPath(nodes, levels, l, i, id, key)
    requires !GoesRight(nodes[id], key) && nodes[id].Internal?
    ensures 0 < l && LinkOK(nodes, levels[l], levels[l - 1])
    ensures Increasing(nodes[id].keys) && ChildIndex(nodes[id].keys, key) < |nodes[id].children|
    ensures var child := nodes[id].children[ChildIndex(nodes[id].keys, key)];
      && p == Offset(nodes, levels[l], i) + ChildIndex(nodes[id].keys, key)
      && OnPath(nodes, levels, l - 1, p, child, key) && !GoesRight(nodes[child], key)
  {
    StayHere(nodes, levels, l, i, id, key);
    var up, low := levels[l], levels[l - 1];
    assert LinkOK(nodes, up, low) && ChainOK(nodes, low, l == 1);
    Descend(nodes, up, low, i, key);
    p := Offset(nodes, up, i) + ChildIndex(nodes[id].keys, key);
    StayHere(nodes, levels, l - 1, p, low.ids[p], key);
  }

  lemma WholeIsReadable(nodes: seq<Node>, root: NodeId, levels: seq<Level>, m: map<Key, Value>)
    requires Inv(nodes, root, levels, m)
    ensures Readable(nodes, levels, m, 0)
  {
  }

  /** Where a node that covers `key` before a split of its level is afterwards: at or to the left of `key`. */
  lemma CoversLags(was: Level, p: nat, newId: NodeId, sep: Key, q: nat, key: Key)
    requires WellFormed(was) && p < |was.ids| && q < |was.ids| && Inside(was, p, sep) && Covers(was, q, key)
    ensures var low := SplitLevel(was, p, newId, sep); var q' := if q <= p then q else q + 1;
      WellFormed(low) && q' < |low.ids| && low.ids[q'] == was.ids[q] && AtOrLeftOf(low, q', key)
  {
    SplitWellFormed(was, p, newId, sep);
  }

  lemma DownLagging(nodes: seq<Node>, up: Level, low: Level, i: nat, key: Key) returns (q: nat)
    requires WellFormed(up) && LagsBehind(nodes, up, low) && i < |up.ids| && Covers(up, i, key)
    ensures up.ids[i] < |nodes| && Increasing(nodes[up.ids[i]].keys) && nodes[up.ids[i]].Internal?
    ensures var n := nodes[up.ids[i]]; var j := ChildIndex(n.keys, key);
      j < |n.children| && WellFormed(low) && q < |low.ids| && low.ids[q] == n.children[j] && AtOrLeftOf(low, q, key)
  {
    var was, p, newId, sep :| Lags(nodes, up, low, was, p, newId, sep);
    Descend(nodes, up, was, i, key);
    q := Offset(nodes, up, i) + ChildIndex(nodes[up.ids[i]].keys, key);
    CoversLags(was, p, newId, sep, q, key);
    q := if q <= p then q else q + 1;
  }

  lemma DownLinked(nodes: seq<Node>, up: Level, low: Level, i: nat, key: Key) returns (q: nat)
    requires WellFormed(up) && WellFormed(low) && LinkOK(nodes, up, low) && i < |up.ids| && Covers(up, i, key)
    ensures up.ids[i] < |nodes| && Increasing(nodes[up.ids[i]].keys) && nodes[up.ids[i]].Internal?
    ensures var n := nodes[up.ids[i]]; var j := ChildIndex(n.keys, key);
      j < |n.children| && q < |low.ids| && low.ids[q] == n.children[j] && AtOrLeftOf(low, q, key)
  {
    Descend(nodes, up, low, i, key);
    q := Offset(nodes, up, i) + ChildIndex(nodes[up.ids[i]].keys, key);
  }

  /** A descent, also over a link that lags behind a split, leads to a node at or to the left of `key`. */
  lemma StepDown(nodes: seq<Node>, levels: seq<Level>, m: map<Key, Value>, gap: nat, l: nat, i: nat, id: NodeId, key: Key) returns (q: nat)
    requires Readable(nodes, levels, m, gap) && OnPath(nodes, levels, l, i, id, key)
    requires !GoesRight(nodes[id], key) && nodes[id].Internal?
    ensures 0 < l && Increasing(nodes[id].keys) && ChildIndex(nodes[id].keys, key) < |nodes[id].children|
    ensures OnPath(nodes, levels, l - 1, q, nodes[id].children[ChildIndex(nodes[id].keys, key)], key)
  {
    StayHere(nodes, levels, l, i, id, key);
    assert ChainOK(nodes, levels[l - 1], l == 1);
    if l == gap {
      q := DownLagging(nodes, levels[l], levels[l - 1], i, key);
    } else {
      assert LinkOK(nodes, levels[l], levels[l - 1]);
      q := DownLinked(nodes, levels[l], levels[l - 1], i, key);
    }
  }

  lemma InnerSize(nodes: seq<Node>, root: NodeId, levels: seq<Level>, m: map<Key, Value>, l: nat, i: nat, id: NodeId)
    requires Inv(nodes, root, levels, m) && 0 < l < |levels| && i < |levels[l].ids| && levels[l].ids[i] == id < |nodes|
    ensures |nodes[id].keys| <= NODE_CAPACITY && (|nodes[id].keys| >= SPLIT_AT || |levels[l].ids| == 1)
  {
    assert SizeOK(nodes[id], l, |levels[l].ids| == 1);
  }

  /** The leaf reached decides membership. */
  lemma AtLeaf(nodes: seq<Node>, levels: seq<Level>, m: map<Key, Value>, i: nat, id: NodeId, key: Key)
    requires Chains(nodes, levels) && |levels| > 0 && Stores(nodes, levels[0], m)
    requires OnPath(nodes, levels, 0, i, id, key) && !GoesRight(nodes[id], key)
    ensures LeafOK(nodes[id], m) && Covers(levels[0], i, key)
    ensures var p := LowerBound(nodes[id].keys, key);
      if p < |nodes[id].keys| && nodes[id].keys[p] == key then Lookup(m, key) == Some(nodes[id].vals[p])
      else key !in m && key !in nodes[id].keys
  {
    StayHere(nodes, levels, 0, i, id, key);
    LeafDecides(nodes[id], m, key);
    assert key in m ==> key in nodes[id].keys;
  }

  lemma LeafDecides(n: Node, m: map<Key, Value>, key: Key)
    requires LeafOK(n, m)
    ensures var p := LowerBound(n.keys, key);
      if p < |n.keys| && n.keys[p] == key then Lookup(m, key) == Some(n.vals[p]) else key !in n.keys
  {
    if key in n.keys {
      var q :| 0 <= q < |n.keys| && n.keys[q] == key;
      assert LowerBound(n.keys, key) <= q;
    }
  }

  // ---------------------------------------------------------------- scanning leaves

  /** A scan from `lo` that has finished all leaves left of the `i`-th and the first `j` keys of that one. */
  ghost predicate Scanned(out: seq<(Key, Value)>, m: map<Key, Value>, lv: Level, i: nat, keys: seq<Key>, lo: Key, hi: Key)
    requires WellFormed(lv) && i < |lv.ids|
  {
    && (forall x, y :: 0 <= x < y < |out| ==> out[x].0 < out[y].0)
    && (forall x :: 0 <= x < |out| ==>
          && lo <= out[x].0 < hi && out[x].0 in m && m[out[x].0] == out[x].1
          && (!AtOrLeftOf(lv, i, out[x].0) || out[x].0 in keys))
    && (forall k :: k in m && lo <= k < hi && (!AtOrLeftOf(lv, i, k) || k in keys) ==> (k, m[k]) in out)
  }

  lemma ScanStart(m: map<Key, Value>, lv: Level, i: nat, lo: Key, hi: Key)
    requires WellFormed(lv) && i < |lv.ids| && Covers(lv, i, lo)
    ensures Scanned([], m, lv, i, [], lo, hi)
  {
  }

  lemma ScanKey(out: seq<(Key, Value)>, m: map<Key, Value>, lv: Level, i: nat, n: Node, j: nat, lo: Key, hi: Key)
    requires WellFormed(lv) && i < |lv.ids| && LeafOK(n, m) && j < |n.keys| && n.keys[j] < hi
    requires forall x :: 0 <= x < |n.keys| ==> Covers(lv, i, n.keys[x])
    requires Scanned(out, m, lv, i, n.keys[..j], lo, hi)
    ensures Scanned(if n.keys[j] >= lo then out + [(n.keys[j], n.vals[j])] else out, m, lv, i, n.keys[..j + 1], lo, hi)
  {
    var k := n.keys[j];
    assert n.keys[..j + 1] == n.keys[..j] + [k];
    forall x | 0 <= x < |out| ensures out[x].0 < k {
    }
    var out' := if k >= lo then out + [(k, n.vals[j])] else out;
    assert k >= lo ==> out'[|out|] == (k, m[k]);
  }

  lemma ScanStops(out: seq<(Key, Value)>, m: map<Key, Value>, lv: Level, i: nat, n: Node, j: nat, lo: Key, hi: Key)
    requires WellFormed(lv) && i < |lv.ids| && LeafOK(n, m) && j <= |n.keys|
    requires forall x :: 0 <= x < |n.keys| ==> Covers(lv, i, n.keys[x])
    requires forall k :: k in m && Covers(lv, i, k) ==> k in n.keys
    requires Scanned(out, m, lv, i, n.keys[..j], lo, hi)
    requires if j < |n.keys| then n.keys[j] >= hi else i == |lv.seps|
    ensures IsRange(out, m, lo, hi)
  {
    forall k | k in m && lo <= k < hi ensures (k, m[k]) in out {
      if AtOrLeftOf(lv, i, k) {
        var x :| 0 <= x < |n.keys| && n.keys[x] == k;
        assert x < j && n.keys[..j][x] == k;
      }
    }
  }

  lemma ScanNext(out: seq<(Key, Value)>, m: map<Key, Value>, lv: Level, i: nat, n: Node, lo: Key, hi: Key)
    requires WellFormed(lv) && i + 1 < |lv.ids|
    requires forall x :: 0 <= x < |n.keys| ==> Covers(lv, i, n.keys[x])
    requires forall k :: k in m && Covers(lv, i, k) ==> k in n.keys
    requires Scanned(out, m, lv, i, n.keys, lo, hi)
    ensures Scanned(out, m, lv, i + 1, [], lo, hi)
  {
    assert i > 0 ==> lv.seps[i - 1] < lv.seps[i];
  }

  lemma LeafFacts(nodes: seq<Node>, lv: Level, m: map<Key, Value>, i: nat)
    requires ChainOK(nodes, lv, true) && Stores(nodes, lv, m) && i < |lv.ids|
    ensures lv.ids[i] < |nodes| && WellFormed(lv)
    ensures var n := nodes[lv.ids[i]];
      && LeafOK(n, m) && n.right == RightOf(lv, i)
      && (forall x :: 0 <= x < |n.keys| ==> Covers(lv, i, n.keys[x]))
      && (forall k :: k in m && Covers(lv, i, k) ==> k in n.keys)
  {
  }

  class BTree {
    var nodes: seq<Node>
    var root: NodeId

    /** The map this tree stands for. */
    ghost var contents: map<Key, Value>
    /** The levels of the arena, leaves first. */
    ghost var levels: seq<Level>
    /** How many inserts so far met a key that was absent. */
    ghost var inserted: nat

    ghost predicate Valid()
      reads this
    {
      && Inv(nodes, root, levels, contents)
      && Credit(nodes, levels[0]) <= inserted + SPLIT_AT
    }

    constructor ()
      ensures Valid() && contents == map[] && inserted == 0
    {
      nodes := [Leaf([], [], None, None)];
      root := 0;
      contents := map[];
      levels := [Level([0], [])];
      inserted := 0;
      EmptyTree();
    }

    /** The descent of `get` and `delete`: right along a level while `key` is beyond the high key, else down. */
    method LeafFrom(start: NodeId, key: Key, ghost a: nat, ghost low: Option<Key>, ghost gap: nat) returns (id: NodeId, ghost i: nat)
      requires Readable(nodes, levels, contents, gap)
      requires a < |levels| && At(levels[a], start, low) && (low.Some? ==> low.value <= key)
      ensures OnPath(nodes, levels, 0, i, id, key) && !GoesRight(nodes[id], key)
    {
      id := start;
      ghost var l: nat := a;
      i := Enter(nodes, levels, a, start, low, key);
      while nodes[id].Internal? || GoesRight(nodes[id], key)
        invariant OnPath(nodes, levels, l, i, id, key)
        decreases l, |levels[l].ids| - i
      {
        if GoesRight(nodes[id], key) {
          MoveRight(nodes, levels, l, i, id, key);
          id, i := nodes[id].right.value, i + 1;
        } else {
          i := StepDown(nodes, levels, contents, gap, l, i, id, key);
          id, l := nodes[id].children[ChildIndex(nodes[id].keys, key)], l - 1;
        }
      }
    }

    /**
      The lookup entered at any node `start` of level `a` whose key range begins at or below
      `key`. It answers as if entered at the root, also between a split and the update of the
      parent, which is what lets a reader that holds an outdated pointer go on without a latch.
    */
    method GetFrom(start: NodeId, key: Key, ghost a: nat, ghost low: Option<Key>, ghost gap: nat) returns (r: Option<Value>)
      requires Readable(nodes, levels, contents, gap)
      requires a < |levels| && At(levels[a], start, low) && (low.Some? ==> low.value <= key)
      ensures r == Lookup(contents, key)
    {
      var id;
      ghost var i;
      id, i := LeafFrom(start, key, a, low, gap);
      AtLeaf(nodes, levels, contents, i, id, key);
      var p := LowerBound(nodes[id].keys, key);
      r := if p < |nodes[id].keys| && nodes[id].keys[p] == key then Some(nodes[id].vals[p]) else None;
    }

    method Get(key: Key) returns (r: Option<Value>)
      requires Valid()
      ensures r == Lookup(contents, key)
    {
      EnterRoot(nodes, root, levels, contents, key);
      WholeIsReadable(nodes, root, levels, contents);
      r := GetFrom(root, key, |levels| - 1, None, 0);
    }

    method Contains(key: Key) returns (b: bool)
      requires Valid()
      ensures b <==> key in contents
    {
      var r := Get(key);
      b := r.Some?;
    }

    /** The leaf that covers `key`, found without right-links. */
    method LeftmostLeafFor(key: Key) returns (id: NodeId, ghost i: nat)
      requires Valid()
      ensures OnPath(nodes, levels, 0, i, id, key) && Covers(levels[0], i, key)
    {
      EnterRoot(nodes, root, levels, contents, key);
      id := root;
      ghost var l: nat := |levels| - 1;
      i := 0;
      while nodes[id].Internal?
        invariant OnPath(nodes, levels, l, i, id, key) && !GoesRight(nodes[id], key)
        decreases l
      {
        i := MoveDown(nodes, levels, l, i, id, key);
        id, l := nodes[id].children[ChildIndex(nodes[id].keys, key)], l - 1;
      }
      StayHere(nodes, levels, 0, i, id, key);
    }

    /** Scans the leaves along their right-links from the one that covers `lo`. */
    method Range(lo: Key, hi: Key) returns (out: seq<(Key, Value)>)
      requires Valid()
      ensures IsRange(out, contents, lo, hi)
    {
      out := [];
      if lo >= hi {
        return;
      }
      ghost var i: nat;
      var id;
      id, i := LeftmostLeafFor(lo);
      ScanStart(contents, levels[0], i, lo, hi);
      while true
        invariant i < |levels[0].ids| && levels[0].ids[i] == id < |nodes| && WellFormed(levels[0])
        invariant Scanned(out, contents, levels[0], i, [], lo, hi)
        decreases |levels[0].ids| - i
      {
        var past;
        out, past := ScanLeaf(out, id, lo, hi, i);
        if past || nodes[id].right.None? {
          return;
        }
        id, i := nodes[id].right.value, i + 1;
      }
    }

    /** Scans one leaf; `past` reports that a key at or beyond `hi` was met. */
    method ScanLeaf(done: seq<(Key, Value)>, id: NodeId, lo: Key, hi: Key, ghost i: nat)
      returns (out: seq<(Key, Value)>, past: bool)
      requires Valid()
      requires i < |levels[0].ids| && levels[0].ids[i] == id < |nodes| && WellFormed(levels[0])
      requires Scanned(done, contents, levels[0], i, [], lo, hi)
      ensures past || nodes[id].right.None? ==> IsRange(out, contents, lo, hi)
      ensures !past && nodes[id].right.Some? ==>
        i + 1 < |levels[0].ids| && levels[0].ids[i + 1] == nodes[id].right.value < |nodes|
      ensures !past && nodes[id].right.Some? ==> Scanned(out, contents, levels[0], i + 1, [], lo, hi)
    {
      LeafFacts(nodes, levels[0], contents, i);
      var leaf := nodes[id];
      out := done;
      var j := 0;
      while j < |leaf.keys|
        invariant 0 <= j <= |leaf.keys|
        invariant Scanned(out, contents, levels[0], i, leaf.keys[..j], lo, hi)
      {
        if leaf.keys[j] >= hi {
          ScanStops(out, contents, levels[0], i, leaf, j, lo, hi);
          return out, true;
        }
        ScanKey(out, contents, levels[0], i, leaf, j, lo, hi);
        if leaf.keys[j] >= lo {
          out := out + [(leaf.keys[j], leaf.vals[j])];
        }
        j := j + 1;
      }
      past := false;
      assert leaf.keys[..j] == leaf.keys;
      if leaf.right.Some? {
        ScanNext(out, contents, levels[0], i, leaf, lo, hi);
        LeafFacts(nodes, levels[0], contents, i + 1);
      } else {
        ScanStops(out, contents, levels[0], i, leaf, j, lo, hi);
      }
    }

    method LeftmostLeaf() returns (id: NodeId)
      requires Valid()
      ensures id == levels[0].ids[0]
    {
      id := root;
      ghost var l: nat := |levels| - 1;
      while nodes[id].Internal?
        invariant l < |levels| && id == levels[l].ids[0] < |nodes| && (l == 0 <==> nodes[id].Leaf?)
        decreases l
      {
        assert LinkOK(nodes, levels[l], levels[l - 1]) && ChainOK(nodes, levels[l - 1], l == 1);
        SliceBelow(nodes, levels[l], levels[l - 1], 0);
        id, l := nodes[id].children[0], l - 1;
      }
    }

    /** Counts along the leaf right-links. */
    method Len() returns (n: nat)
      requires Valid()
      ensures n == |contents|
    {
      var id := LeftmostLeaf();
      ghost var i: nat := 0;
      n := 0;
      assert KeysBefore(levels[0], contents, 0) == {};
      while true
        invariant i < |levels[0].ids| && levels[0].ids[i] == id && n == |KeysBefore(levels[0], contents, i)|
        decreases |levels[0].ids| - i
      {
        KeysUpTo(nodes, levels[0], contents, i);
        n := n + |nodes[id].keys|;
        match nodes[id].right {
          case Some(r) => id, i := r, i + 1;
          case None => return;
        }
      }
    }

    method IsEmpty() returns (b: bool)
      requires Valid()
      ensures b <==> contents == map[]
    {
      var n := Len();
      b := n == 0;
    }

    /** Removes `key`; a leaf may become sparse or empty, nothing is rebalanced. */
    method Delete(key: Key) returns (r: Option<Value>)
      requires Valid()
      modifies this
      ensures Valid()
      ensures r == Lookup(old(contents), key) && contents == old(contents) - {key}
      ensures levels == old(levels) && root == old(root) && inserted == old(inserted)
    {
      EnterRoot(nodes, root, levels, contents, key);
      var id;
      ghost var i;
      WholeIsReadable(nodes, root, levels, contents);
      id, i := LeafFrom(root, key, |levels| - 1, None, 0);
      AtLeaf(nodes, levels, contents, i, id, key);
      var leaf := nodes[id];
      var p := LowerBound(leaf.keys, key);
      if p < |leaf.keys| && leaf.keys[p] == key {
        LeafRemoveStep(nodes, levels, contents, i, p);
        r := Some(leaf.vals[p]);
        nodes := nodes[id := leaf.(keys := RemoveAt(leaf.keys, p), vals := RemoveAt(leaf.vals, p))];
        contents := contents - {key};
      } else {
        r := None;
        assert contents - {key} == contents;
      }
    }

    method SplitLeaf(id: NodeId, ghost i: nat) returns (sep: Key, newId: NodeId)
      requires |levels| > 0 && i < |levels[0].ids| && levels[0].ids[i] == id && Holds(nodes, levels, contents, 0, id)
      requires id < |nodes| && LeafOK(nodes[id], contents) && |nodes[id].keys| == NODE_CAPACITY + 1
      modifies this`nodes, this`levels
      ensures newId == old(|nodes|) && |nodes| == old(|nodes|) + 1
      ensures forall x :: 0 <= x < old(|nodes|) && x != id ==> nodes[x] == old(nodes[x])
      ensures Inside(old(levels[0]), i, sep) && levels == old(levels)[0 := SplitLevel(old(levels[0]), i, newId, sep)]
      ensures |nodes[id].keys| == SPLIT_AT && |nodes[newId].keys| == NODE_CAPACITY + 1 - SPLIT_AT
      ensures Holds(nodes, levels, contents, 1, -1) && Readable(nodes, levels, contents, 1)
      ensures Credit(nodes, levels[0]) == old(Credit(nodes, levels[0]))
    {
      LeafSplitStep(nodes, levels, contents, i);
      LeafSplitReadable(nodes, levels, contents, i);
      sep, newId := nodes[id].keys[SPLIT_AT], |nodes|;
      nodes := nodes[id := LeftLeaf(nodes[id], newId)] + [RightLeaf(nodes[id])];
      levels := levels[0 := SplitLevel(levels[0], i, newId, sep)];
    }

    method SplitInternal(id: NodeId, ghost l: nat, ghost i: nat) returns (sep: Key, newId: NodeId)
      requires 0 < l < |levels| && i < |levels[l].ids| && levels[l].ids[i] == id && Holds(nodes, levels, contents, 0, id)
      requires id < |nodes| && nodes[id].Internal? && |nodes[id].keys| == NODE_CAPACITY + 1
      requires |nodes[id].children| == |nodes[id].keys| + 1
      modifies this`nodes, this`levels
      ensures newId == old(|nodes|) && |nodes| == old(|nodes|) + 1
      ensures forall x :: 0 <= x < old(|nodes|) && x != id ==> nodes[x] == old(nodes[x])
      ensures Inside(old(levels[l]), i, sep) && levels == old(levels)[l := SplitLevel(old(levels[l]), i, newId, sep)]
      ensures Holds(nodes, levels, contents, l + 1, -1) && Readable(nodes, levels, contents, l + 1)
      ensures Credit(nodes, levels[0]) == old(Credit(nodes, levels[0]))
    {
      InternalSplitStep(nodes, levels, contents, l, i);
      sep, newId := nodes[id].keys[SPLIT_AT], |nodes|;
      nodes := nodes[id := LeftInternal(nodes[id], newId)] + [RightInternal(nodes[id])];
      levels := levels[l := SplitLevel(levels[l], i, newId, sep)];
      SplitLags(old(nodes), nodes, old(levels), levels, contents, l, i, newId, sep);
    }

    /** Inserts below the `i`-th node of level `l`; reports the separator and the new node if that node split. */
    method InsertRec(id: NodeId, key: Key, value: Value, ghost l: nat, ghost i: nat) returns (split: Option<(Key, NodeId)>)
      requires Inv(nodes, root, levels, contents)
      requires OnPath(nodes, levels, l, i, id, key) && !GoesRight(nodes[id], key)
      modifies this`nodes, this`levels, this`contents
      ensures Inserted(old(nodes), old(levels), old(contents), nodes, levels, contents, key, value, l, i, split)
      decreases l, 1
    {
      if nodes[id].Leaf? {
        split := InsertIntoLeaf(id, key, value, i);
      } else {
        split := InsertBelow(id, key, value, l, i);
      }
    }

    method InsertBelow(id: NodeId, key: Key, value: Value, ghost l: nat, ghost i: nat) returns (split: Option<(Key, NodeId)>)
      requires Inv(nodes, root, levels, contents)
      requires OnPath(nodes, levels, l, i, id, key) && !GoesRight(nodes[id], key) && nodes[id].Internal?
      modifies this`nodes, this`levels, this`contents
      ensures Inserted(old(nodes), old(levels), old(contents), nodes, levels, contents, key, value, l, i, split)
      decreases l, 0
    {
      ghost var nodes0, levels0, m0 := nodes, levels, contents;
      ghost var p := MoveDown(nodes, levels, l, i, id, key);
      InnerSize(nodes, root, levels, contents, l, i, id);
      var j := ChildIndex(nodes[id].keys, key);
      var below := InsertRec(nodes[id].children[j], key, value, l - 1, p);
      if below.Some? {
        var (sep, newId) := below.value;
        split := AdoptChildOf(id, sep, newId, nodes0, levels0, m0, key, value, l, i, j, p);
      } else {
        split := None;
        InsertedNoSplit(nodes0, levels0, m0, nodes, levels, contents, key, value, p, l, i);
      }
    }

    method InsertIntoLeaf(id: NodeId, key: Key, value: Value, ghost i: nat) returns (split: Option<(Key, NodeId)>)
      requires Inv(nodes, root, levels, contents)
      requires OnPath(nodes, levels, 0, i, id, key) && !GoesRight(nodes[id], key)
      modifies this`nodes, this`levels, this`contents
      ensures Inserted(old(nodes), old(levels), old(contents), nodes, levels, contents, key, value, 0, i, split)
    {
      AtLeaf(nodes, levels, contents, i, id, key);
      var leaf := nodes[id];
      var p := LowerBound(leaf.keys, key);
      if p < |leaf.keys| && leaf.keys[p] == key {
        LeafReplaceStep(nodes, levels, contents, i, p, value);
        nodes := nodes[id := leaf.(vals := leaf.vals[p := value])];
        contents := contents[key := value];
        split := None;
      } else {
        split := InsertNewKey(id, key, value, i);
      }
    }

    method InsertNewKey(id: NodeId, key: Key, value: Value, ghost i: nat) returns (split: Option<(Key, NodeId)>)
      requires Holds(nodes, levels, contents, 0, -1) && i < |levels[0].ids| && levels[0].ids[i] == id
      requires Covers(levels[0], i, key) && LeafOK(nodes[id], contents) && key !in nodes[id].keys
      modifies this`nodes, this`levels, this`contents
      ensures contents == old(contents)[key := value]
      ensures GrewBelow(old(nodes), old(levels), nodes, levels, 0, i, split)
      ensures Holds(nodes, levels, contents, if split.None? then 0 else 1, -1)
      ensures Keeps(old(levels), levels)
      ensures Credit(nodes, levels[0]) <= old(Credit(nodes, levels[0])) + 1
    {
      DistinctAt(levels, 0, i);
      LeafInsertStep(nodes, levels, contents, i, key, value);
      KeysOfLeaf(nodes, levels, contents, i, key);
      nodes := nodes[id := LeafWith(nodes[id], LowerBound(nodes[id].keys, key), key, value)];
      contents := contents[key := value];
      if |nodes[id].keys| > NODE_CAPACITY {
        var sep, newId := SplitLeaf(id, i);
        SplitLevelKeeps(old(levels), 0, i, newId, sep);
        split := Some((sep, newId));
      } else {
        SizesComplete(nodes, levels, 0, i);
        split := None;
      }
    }

    /** Records the split of child `j` in its parent, which may overflow and split in turn. */
    method AdoptChildOf(id: NodeId, sep: Key, newId: NodeId,
                        ghost nodes0: seq<Node>, ghost levels0: seq<Level>, ghost m0: map<Key, Value>,
                        ghost key: Key, ghost value: Value, ghost l: nat, ghost i: nat, ghost j: nat, ghost p: nat)
      returns (split: Option<(Key, NodeId)>)
      requires 0 < l < |levels0| && i < |levels0[l].ids| && levels0[l].ids[i] == id < |nodes0|
      requires LinkOK(nodes0, levels0[l], levels0[l - 1]) && j <= |nodes0[id].keys|
      requires |nodes0[id].keys| <= NODE_CAPACITY && (|nodes0[id].keys| >= SPLIT_AT || |levels0[l].ids| == 1)
      requires p == Offset(nodes0, levels0[l], i) + j
      requires Inserted(nodes0, levels0, m0, nodes, levels, contents, key, value, l - 1, p, Some((sep, newId)))
      modifies this`nodes, this`levels
      ensures Inserted(nodes0, levels0, m0, nodes, levels, contents, key, value, l, i, split)
    {
      ghost var nodes1, levels1 := nodes, levels;
      AdoptStep(nodes0, levels0, nodes, levels, contents, l, i, j, p, sep, newId);
      nodes := nodes[id := WithChild(nodes[id], LowerBound(nodes[id].keys, sep), sep, newId)];
      split := SplitIfFull(id, l, i);
      GrewUp(nodes0, levels0, nodes1, levels1, p, (sep, newId), nodes, levels, l, i, split);
      KeepsTransitive(levels0, levels1, levels);
    }

    method SplitIfFull(id: NodeId, ghost l: nat, ghost i: nat) returns (split: Option<(Key, NodeId)>)
      requires 0 < l < |levels| && i < |levels[l].ids| && levels[l].ids[i] == id && Holds(nodes, levels, contents, 0, id)
      requires id < |nodes| && nodes[id].Internal? && |nodes[id].children| == |nodes[id].keys| + 1
      requires 0 < |nodes[id].keys| <= NODE_CAPACITY + 1 && (|nodes[id].keys| >= SPLIT_AT || |levels[l].ids| == 1)
      modifies this`nodes, this`levels
      ensures old(|nodes|) <= |nodes| && forall x :: 0 <= x < old(|nodes|) && x != id ==> nodes[x] == old(nodes[x])
      ensures split.None? ==> levels == old(levels)
      ensures split.Some? ==> Inside(old(levels[l]), i, split.value.0)
      ensures split.Some? ==> levels == old(levels)[l := SplitLevel(old(levels[l]), i, split.value.1, split.value.0)]
      ensures Holds(nodes, levels, contents, if split.None? then 0 else l + 1, -1)
      ensures Keeps(old(levels), levels)
      ensures Credit(nodes, levels[0]) == old(Credit(nodes, levels[0]))
    {
      if |nodes[id].keys| > NODE_CAPACITY {
        var sep, newId := SplitInternal(id, l, i);
        SplitLevelKeeps(old(levels), l, i, newId, sep);
        split := Some((sep, newId));
      } else {
        SizesComplete(nodes, levels, l, i);
        split := None;
      }
    }

    /** Inserts or replaces; a split root gets a new root above it. */
    method Insert(key: Key, value: Value)
      requires Valid()
      modifies this
      ensures Valid()
      ensures contents == old(contents)[key := value]
      ensures inserted == old(inserted) + if key in old(contents) then 0 else 1
      ensures Keeps(old(levels), levels)
    {
      EnterRoot(nodes, root, levels, contents, key);
      ghost var nodes0, levels0, m0 := nodes, levels, contents;
      var split := InsertRec(root, key, value, |levels| - 1, 0);
      inserted := inserted + if key in m0 then 0 else 1;
      RaiseRoot(split, nodes0, levels0, m0, key, value);
    }

    /** Puts a new root above the two halves if the old root split. */
    method RaiseRoot(split: Option<(Key, NodeId)>, ghost nodes0: seq<Node>, ghost levels0: seq<Level>, ghost m0: map<Key, Value>,
                     ghost key: Key, ghost value: Value)
      requires |levels0| > 0 && levels0[|levels0| - 1] == Level([root], []) && Chains(nodes0, levels0)
      requires Inserted(nodes0, levels0, m0, nodes, levels, contents, key, value, |levels0| - 1, 0, split)
      modifies this`nodes, this`levels, this`root
      ensures Inv(nodes, root, levels, contents) && Keeps(levels0, levels) && contents == m0[key := value]
      ensures Credit(nodes, levels[0]) <= Credit(nodes0, levels0[0]) + if key in m0 then 0 else 1
    {
      InsertedAtRoot(nodes0, levels0, m0, nodes, levels, contents, key, value, root, split);
      if split.Some? {
        PushRoot(split.value.0, split.value.1, levels0);
      }
    }

    method PushRoot(sep: Key, rightId: NodeId, ghost levels0: seq<Level>)
      requires |levels| > 0 && Holds(nodes, levels, contents, |levels|, -1) && Keeps(levels0, levels)
      requires levels[|levels| - 1] == Level([root, rightId], [sep])
      modifies this`nodes, this`levels, this`root
      ensures Inv(nodes, root, levels, contents) && Keeps(levels0, levels)
      ensures Credit(nodes, levels[0]) == old(Credit(nodes, levels[0]))
    {
      NewRootStep(nodes, levels, contents, root, sep, rightId);
      KeepsTransitive(levels0, levels, levels + [Level([|nodes|], [])]);
      var newRoot := |nodes|;
      nodes := nodes + [Internal([sep], [root, rightId], None, None)];
      levels := levels + [Level([newRoot], [])];
      root := newRoot;
    }

    /** The height of the tree is logarithmic in the inserts of new keys, whatever was deleted since. */
    lemma HeightIsBounded()
      requires Valid() && |levels| > 1
      ensures 2 * Pow33(|levels| - 2) <= 1 + inserted / 32
    {
      HeightBound(nodes, root, levels, contents, inserted);
    }
  }

  // ---------------------------------------------------------------- whole runs

  datatype Op = Put(key: Key, value: Value) | Remove(key: Key)

  ghost function Apply(m: map<Key, Value>, ops: seq<Op>): map<Key, Value> {
    if ops == [] then m
    else
      var m' := Apply(m, ops[..|ops| - 1]);
      match ops[|ops| - 1]
      case Put(k, v) => m'[k := v]
      case Remove(k) => m' - {k}
  }

  /** Any run of inserts and deletes does to the tree what it does to a map, and strands no reader. */
  method Run(t: BTree, ops: seq<Op>)
    requires t.Valid()
    modifies t
    ensures t.Valid() && t.contents == Apply(old(t.contents), ops)
    ensures Keeps(old(t.levels), t.levels)
  {
    for i := 0 to |ops|
      invariant t.Valid() && t.contents == Apply(old(t.contents), ops[..i])
      invariant Keeps(old(t.levels), t.levels)
    {
      assert ops[..i + 1][..i] == ops[..i];
      ghost var before := t.levels;
      match ops[i] {
        case Put(k, v) =>
          t.Insert(k, v);
          KeepsTransitive(old(t.levels), before, t.levels);
        case Remove(k) =>
          var _ := t.Delete(k);
      }
    }
    assert ops[..|ops|] == ops;
  }

  /** A reader that took any node on its way to `key` before a run of changes still finds the right answer after it. */
  method StaleLookup(t: BTree, start: NodeId, key: Key, ops: seq<Op>, ghost a: nat, ghost low: Option<Key>)
    returns (r: Option<Value>)
    requires t.Valid() && a < |t.levels| && At(t.levels[a], start, low) && (low.Some? ==> low.value <= key)
    modifies t
    ensures r == Lookup(Apply(old(t.contents), ops), key)
  {
    Run(t, ops);
    WholeIsReadable(t.nodes, t.root, t.levels, t.contents);
    r := t.GetFrom(start, key, a, low, 0);
  }

  /** In particular the root of the tree before the run, which splits may have buried under new roots. */
  method FormerRootLookup(t: BTree, key: Key, ops: seq<Op>) returns (r: Option<Value>)
    requires t.Valid()
    modifies t
    ensures r == Lookup(Apply(old(t.contents), ops), key)
  {
    EnterRoot(t.nodes, t.root, t.levels, t.contents, key);
    r := StaleLookup(t, t.root, key, ops, |t.levels| - 1, None);
  }

  // ---------------------------------------------------------------- a reader in the middle of an insert

  /** A reader that took any node before a leaf split finds the right answer before the parent knows of the new leaf. */
  method LookupDuringLeafSplit(t: BTree, id: NodeId, ghost i: nat, start: NodeId, key: Key, ghost a: nat, ghost low: Option<Key>)
    returns (r: Option<Value>)
    requires |t.levels| > 0 && i < |t.levels[0].ids| && t.levels[0].ids[i] == id && Holds(t.nodes, t.levels, t.contents, 0, id)
    requires id < |t.nodes| && LeafOK(t.nodes[id], t.contents) && |t.nodes[id].keys| == NODE_CAPACITY + 1
    requires a < |t.levels| && At(t.levels[a], start, low) && (low.Some? ==> low.value <= key)
    modifies t
    ensures t.contents == old(t.contents) && r == Lookup(t.contents, key)
  {
    var sep, newId := t.SplitLeaf(id, i);
    SplitLevelKeeps(old(t.levels), 0, i, newId, sep);
    r := t.GetFrom(start, key, a, low, 1);
  }

  /** And likewise before the parent knows of a new inner node. */
  method LookupDuringInnerSplit(t: BTree, id: NodeId, ghost l: nat, ghost i: nat, start: NodeId, key: Key, ghost a: nat, ghost low: Option<Key>)
    returns (r: Option<Value>)
    requires 0 < l < |t.levels| && i < |t.levels[l].ids| && t.levels[l].ids[i] == id && Holds(t.nodes, t.levels, t.contents, 0, id)
    requires id < |t.nodes| && t.nodes[id].Internal? && |t.nodes[id].keys| == NODE_CAPACITY + 1
    requires |t.nodes[id].children| == |t.nodes[id].keys| + 1
    requires a < |t.levels| && At(t.levels[a], start, low) && (low.Some? ==> low.value <= key)
    modifies t
    ensures t.contents == old(t.contents) && r == Lookup(t.contents, key)
  {
    var sep, newId := t.SplitInternal(id, l, i);
    SplitLevelKeeps(old(t.levels), l, i, newId, sep);
    r := t.GetFrom(start, key, a, low, l + 1);
  }

  // ---------------------------------------------------------------- a reader hopping between writers

  lemma {:induction false} ApplyMore(m: map<Key, Value>, a: seq<Op>, b: seq<Op>)
    ensures Apply(m, a + b) == Apply(Apply(m, a), b)
  {
    if b == [] {
      assert a + b == a;
    } else {
      assert (a + b)[..|a + b| - 1] == a + b[..|b| - 1];
      ApplyMore(m, a, b[..|b| - 1]);
    }
  }

  ghost function Flat(batches: seq<seq<Op>>): seq<Op> {
    if batches == [] then [] else Flat(batches[..|batches| - 1]) + batches[|batches| - 1]
  }

  /** A node on the path lies at its level with a low key that does not exceed `key`. */
  lemma PathIsAt(nodes: seq<Node>, levels: seq<Level>, l: nat, i: nat, id: NodeId, key: Key)
    requires OnPath(nodes, levels, l, i, id, key)
    ensures var low := LowOf(levels[l], i); At(levels[l], id, low) && (low.Some? ==> low.value <= key)
  {
  }

  /** One hop of the lookup: right along the level, or down. */
  method Hop(t: BTree, id: NodeId, key: Key, ghost l: nat, ghost i: nat, ghost gap: nat) returns (next: NodeId, ghost l': nat, ghost i': nat)
    requires Readable(t.nodes, t.levels, t.contents, gap) && OnPath(t.nodes, t.levels, l, i, id, key) && (t.nodes[id].Internal? || GoesRight(t.nodes[id], key))
    ensures OnPath(t.nodes, t.levels, l', i', next, key)
  {
    if GoesRight(t.nodes[id], key) {
      MoveRight(t.nodes, t.levels, l, i, id, key);
      next, l', i' := t.nodes[id].right.value, l, i + 1;
    } else {
      i' := StepDown(t.nodes, t.levels, t.contents, gap, l, i, id, key);
      next, l' := t.nodes[id].children[ChildIndex(t.nodes[id].keys, key)], l - 1;
    }
  }

  /** After any run of changes the reader's node is still on its path. */
  method RunUnderReader(t: BTree, ops: seq<Op>, id: NodeId, key: Key, ghost l: nat, ghost i: nat) returns (ghost i': nat)
    requires t.Valid() && OnPath(t.nodes, t.levels, l, i, id, key)
    modifies t
    ensures t.Valid() && t.contents == Apply(old(t.contents), ops) && OnPath(t.nodes, t.levels, l, i', id, key)
  {
    PathIsAt(t.nodes, t.levels, l, i, id, key);
    ghost var low := LowOf(t.levels[l], i);
    Run(t, ops);
    i' := Enter(t.nodes, t.levels, l, id, low, key);
  }

  method HopThenRun(t: BTree, id: NodeId, key: Key, ops: seq<Op>, ghost l: nat, ghost i: nat)
    returns (next: NodeId, ghost l': nat, ghost i': nat)
    requires t.Valid() && OnPath(t.nodes, t.levels, l, i, id, key) && (t.nodes[id].Internal? || GoesRight(t.nodes[id], key))
    modifies t
    ensures t.Valid() && t.contents == Apply(old(t.contents), ops) && OnPath(t.nodes, t.levels, l', i', next, key)
  {
    WholeIsReadable(t.nodes, t.root, t.levels, t.contents);
    next, l', i' := Hop(t, id, key, l, i, 0);
    i' := RunUnderReader(t, ops, next, key, l', i');
  }

  lemma FlatMore(m: map<Key, Value>, batches: seq<seq<Op>>, k: nat)
    requires k < |batches|
    ensures Apply(m, Flat(batches[..k + 1])) == Apply(Apply(m, Flat(batches[..k])), batches[k])
  {
    assert batches[..k + 1][..k] == batches[..k];
    ApplyMore(m, Flat(batches[..k]), batches[k]);
  }

  /**
    A lookup whose single hops alternate with any batches of inserts and deletes, each batch
    whatever its writers do: it ends with the answer that was right when it reached its leaf.
  */
  method InterleavedGet(t: BTree, key: Key, batches: seq<seq<Op>>) returns (r: Option<Value>, ghost ran: nat)
    requires t.Valid()
    modifies t
    ensures t.Valid() && ran <= |batches| && t.contents == Apply(old(t.contents), Flat(batches[..ran]))
    ensures r == Lookup(t.contents, key)
  {
    EnterRoot(t.nodes, t.root, t.levels, t.contents, key);
    var id := t.root;
    ghost var l: nat, i: nat := |t.levels| - 1, 0;
    var k := 0;
    ran := 0;
    while k < |batches| && (t.nodes[id].Internal? || GoesRight(t.nodes[id], key))
      invariant t.Valid() && ran == k <= |batches| && t.contents == Apply(old(t.contents), Flat(batches[..k]))
      invariant OnPath(t.nodes, t.levels, l, i, id, key)
    {
      FlatMore(old(t.contents), batches, k);
      id, l, i := HopThenRun(t, id, key, batches[k], l, i);
      k, ran := k + 1, ran + 1;
    }
    PathIsAt(t.nodes, t.levels, l, i, id, key);
    WholeIsReadable(t.nodes, t.root, t.levels, t.contents);
    r := t.GetFrom(id, key, l, LowOf(t.levels[l], i), 0);
  }
}
