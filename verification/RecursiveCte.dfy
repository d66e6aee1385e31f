/** WITH RECURSIVE: the working-table loop computes a least fixed point, or gives up exactly when it is too deep. */
module RecursiveCte {
  import opened Common
  import opened Permutations

  const MAX_RECURSIVE_ITERATIONS: nat := 10_000

  datatype CteError<E> = TooManyIterations | TermFailed(error: E)

  /** The recursive term, run on a working table; errors include a wrong column count. */
  type Term<!R, E> = seq<R> -> Result<seq<R>, E>

  // ---------------------------------------------------------------- sort and dedup

  /** `x` in its place in a sorted list, unless it is there already. */
  function Placed<R(==,!new)>(le: Order<R>, s: seq<R>, x: R): seq<R> {
    if s == [] then [x]
    else if s[0] == x then s
    else if le(x, s[0]) then [x] + s
    else [s[0]] + Placed(le, s[1..], x)
  }

  /** The rows in order, each once. */
  function SortDedup<R(==,!new)>(le: Order<R>, s: seq<R>): seq<R> {
    if s == [] then [] else Placed(le, SortDedup(le, s[..|s| - 1]), s[|s| - 1])
  }

  /** The rows that are not among `known`. */
  function Fresh<R(==,!new)>(s: seq<R>, known: seq<R>): (r: seq<R>)
    ensures forall y :: y in r <==> y in s && y !in known
  {
    if s == [] then [] else Fresh(s[..|s| - 1], known) + if s[|s| - 1] in known then [] else [s[|s| - 1]]
  }

  ghost predicate Sorted<R>(le: Order<R>, s: seq<R>) {
    forall i, j :: 0 <= i < j < |s| ==> le(s[i], s[j]) && s[i] != s[j]
  }

  ghost predicate NoDuplicates<R>(s: seq<R>) {
    forall i, j :: 0 <= i < j < |s| ==> s[i] != s[j]
  }

  lemma {:induction false} PlacedIs<R(!new)>(le: Order<R>, s: seq<R>, x: R)
    requires TotalOrder(le) && Sorted(le, s)
    ensures Sorted(le, Placed(le, s, x)) && forall y :: y in Placed(le, s, x) <==> y in s || y == x
  {
    if s != [] && s[0] != x && !le(x, s[0]) {
      assert s == [s[0]] + s[1..];
      PlacedIs(le, s[1..], x);
      var r := Placed(le, s[1..], x);
      forall j | 0 <= j < |r| ensures le(s[0], r[j]) && s[0] != r[j] {
        assert r[j] in s[1..] || r[j] == x;
      }
    }
  }

  lemma {:induction false} SortDedupIs<R(!new)>(le: Order<R>, s: seq<R>)
    requires TotalOrder(le)
    ensures Sorted(le, SortDedup(le, s)) && forall y :: y in SortDedup(le, s) <==> y in s
  {
    if s != [] {
      assert s == s[..|s| - 1] + [s[|s| - 1]];
      SortDedupIs(le, s[..|s| - 1]);
      PlacedIs(le, SortDedup(le, s[..|s| - 1]), s[|s| - 1]);
    }
  }

  // ---------------------------------------------------------------- the loop

  function NextWorking<R(==,!new)>(le: Order<R>, dedup: bool, rows: seq<R>, all: seq<R>): seq<R> {
    if dedup then SortDedup(le, Fresh(rows, all)) else rows
  }

  /** The loop with `all` gathered, `working` to feed through the term, and `left` iterations allowed. */
  function Iterate<R(==,!new), E>(le: Order<R>, term: Term<R, E>, dedup: bool, all: seq<R>, working: seq<R>, left: nat): Result<seq<R>, CteError<E>>
    decreases left
  {
    if working == [] then Ok(all)
    else if left == 0 then Err(TooManyIterations)
    else
      match term(working)
      case Err(e) => Err(TermFailed(e))
      case Ok(rows) =>
        var next := NextWorking(le, dedup, rows, all);
        if next == [] then Ok(all) else Iterate(le, term, dedup, all + next, next, left - 1)
  }

  function Evaluate<R(==,!new), E>(le: Order<R>, anchor: seq<R>, term: Term<R, E>, dedup: bool, limit: nat): Result<seq<R>, CteError<E>> {
    var start := if dedup then SortDedup(le, anchor) else anchor;
    Iterate(le, term, dedup, start, start, limit)
  }

  method Run<R(==,!new), E>(le: Order<R>, anchor: seq<R>, term: Term<R, E>, dedup: bool) returns (r: Result<seq<R>, CteError<E>>, iterations: nat)
    ensures r == Evaluate(le, anchor, term, dedup, MAX_RECURSIVE_ITERATIONS)
    ensures r.Ok? ==> iterations <= MAX_RECURSIVE_ITERATIONS
  {
    var all := if dedup then SortDedup(le, anchor) else anchor;
    var working := all;
    iterations := 0;
    while working != []
      invariant iterations <= MAX_RECURSIVE_ITERATIONS
      invariant Evaluate(le, anchor, term, dedup, MAX_RECURSIVE_ITERATIONS) == Iterate(le, term, dedup, all, working, MAX_RECURSIVE_ITERATIONS - iterations)
      decreases MAX_RECURSIVE_ITERATIONS - iterations
    {
      if iterations == MAX_RECURSIVE_ITERATIONS {
        return Err(TooManyIterations), iterations + 1;
      }
      iterations := iterations + 1;
      var step := term(working);
      if step.Err? {
        return Err(TermFailed(step.error)), iterations;
      }
      var next := NextWorking(le, dedup, step.value, all);
      if next == [] {
        break;
      }
      all := all + next;
      working := next;
    }
    r := Ok(all);
  }

  // ---------------------------------------------------------------- reachability

  type Edge<!R> = (R, R) -> bool

  /** The term acts row by row: it derives exactly the rows that some working row leads to. */
  ghost predicate Distributes<R(!new), E>(term: Term<R, E>, edge: Edge<R>) {
    forall w, y :: term(w).Ok? ==> (y in term(w).value <==> exists x :: x in w && edge(x, y))
  }

  /** `y` is derived from the anchor in exactly `n` steps. */
  ghost predicate Derived<R(!new)>(anchor: seq<R>, edge: Edge<R>, n: nat, y: R) {
    if n == 0 then y in anchor else exists x :: Derived(anchor, edge, n - 1, x) && edge(x, y)
  }

  ghost predicate Reachable<R(!new)>(anchor: seq<R>, edge: Edge<R>, y: R) {
    exists n: nat :: Derived(anchor, edge, n, y)
  }

  ghost predicate Within<R(!new)>(anchor: seq<R>, edge: Edge<R>, n: nat, y: R) {
    exists k: nat :: k <= n && Derived(anchor, edge, k, y)
  }

  /** `n` is the least number of steps in which `y` is derived. */
  ghost predicate AtDepth<R(!new)>(anchor: seq<R>, edge: Edge<R>, n: nat, y: R) {
    Derived(anchor, edge, n, y) && forall k: nat :: k < n ==> !Derived(anchor, edge, k, y)
  }

  ghost predicate EmptyDepth<R(!new)>(anchor: seq<R>, edge: Edge<R>, n: nat) {
    forall y :: !AtDepth(anchor, edge, n, y)
  }

  /** What is reachable is the least set that holds the anchor and is closed under the term. */
  lemma ReachableIsLeast<R(!new)>(anchor: seq<R>, edge: Edge<R>, closed: R -> bool)
    requires forall y :: y in anchor ==> closed(y)
    requires forall x, y :: closed(x) && edge(x, y) ==> closed(y)
    ensures forall y :: y in anchor ==> Reachable(anchor, edge, y)
    ensures forall x, y :: Reachable(anchor, edge, x) && edge(x, y) ==> Reachable(anchor, edge, y)
    ensures forall y :: Reachable(anchor, edge, y) ==> closed(y)
  {
    forall y | y in anchor ensures Reachable(anchor, edge, y) {
      assert Derived(anchor, edge, 0, y);
    }
    forall x, y | Reachable(anchor, edge, x) && edge(x, y) ensures Reachable(anchor, edge, y) {
      var n: nat :| Derived(anchor, edge, n, x);
      assert Derived(anchor, edge, n + 1, y);
    }
    forall y | Reachable(anchor, edge, y) ensures closed(y) {
      var n: nat :| Derived(anchor, edge, n, y);
      DerivedIsClosed(anchor, edge, closed, n, y);
    }
  }

  lemma {:induction false} DerivedIsClosed<R(!new)>(anchor: seq<R>, edge: Edge<R>, closed: R -> bool, n: nat, y: R)
    requires forall z :: z in anchor ==> closed(z)
    requires forall x, z :: closed(x) && edge(x, z) ==> closed(z)
    requires Derived(anchor, edge, n, y)
    ensures closed(y)
  {
    if n > 0 {
      var x :| Derived(anchor, edge, n - 1, x) && edge(x, y);
      DerivedIsClosed(anchor, edge, closed, n - 1, x);
    }
  }

  // ---------------------------------------------------------------- what the loop keeps

  /** After `n` iterations: everything within `n` steps, each once, and the working table holds the newest. */
  ghost predicate AtStep<R(!new)>(anchor: seq<R>, edge: Edge<R>, all: seq<R>, working: seq<R>, n: nat) {
    && NoDuplicates(all)
    && (forall y :: y in all <==> Within(anchor, edge, n, y))
    && forall y :: y in working <==> AtDepth(anchor, edge, n, y)
  }

  lemma StartIs<R(!new)>(le: Order<R>, anchor: seq<R>, edge: Edge<R>)
    requires TotalOrder(le)
    ensures AtStep(anchor, edge, SortDedup(le, anchor), SortDedup(le, anchor), 0)
  {
    SortDedupIs(le, anchor);
    forall y ensures y in anchor <==> Within(anchor, edge, 0, y) {
      assert Derived(anchor, edge, 0, y) <==> y in anchor;
    }
  }

  /** A row one step further than `n` and not within it comes from a row of depth exactly `n`. */
  lemma DeeperComesFromDepth<R(!new)>(anchor: seq<R>, edge: Edge<R>, n: nat, y: R)
    ensures AtDepth(anchor, edge, n + 1, y) <==>
            !Within(anchor, edge, n, y) && exists x :: AtDepth(anchor, edge, n, x) && edge(x, y)
  {
    if AtDepth(anchor, edge, n + 1, y) {
      var x :| Derived(anchor, edge, n, x) && edge(x, y);
      forall k: nat | k < n ensures !Derived(anchor, edge, k, x) {
        if Derived(anchor, edge, k, x) {
          assert Derived(anchor, edge, k + 1, y);
        }
      }
      assert AtDepth(anchor, edge, n, x);
    }
    if !Within(anchor, edge, n, y) && exists x :: AtDepth(anchor, edge, n, x) && edge(x, y) {
      assert Derived(anchor, edge, n + 1, y);
    }
  }

  lemma WithinNext<R(!new)>(anchor: seq<R>, edge: Edge<R>, n: nat, y: R)
    ensures Within(anchor, edge, n + 1, y) <==> Within(anchor, edge, n, y) || AtDepth(anchor, edge, n + 1, y)
  {
    if Within(anchor, edge, n + 1, y) && !Within(anchor, edge, n, y) {
      var k: nat :| k <= n + 1 && Derived(anchor, edge, k, y);
      assert k == n + 1;
    }
  }

  lemma NextIs<R(!new), E>(le: Order<R>, anchor: seq<R>, term: Term<R, E>, edge: Edge<R>, all: seq<R>, working: seq<R>, n: nat)
    requires TotalOrder(le) && Distributes(term, edge) && AtStep(anchor, edge, all, working, n) && term(working).Ok?
    ensures var next := NextWorking(le, true, term(working).value, all); AtStep(anchor, edge, all + next, next, n + 1)
  {
    var rows := term(working).value;
    var next := NextWorking(le, true, rows, all);
    SortDedupIs(le, Fresh(rows, all));
    forall y ensures y in next <==> AtDepth(anchor, edge, n + 1, y) {
      DeeperComesFromDepth(anchor, edge, n, y);
      assert y in rows <==> exists x :: x in working && edge(x, y);
    }
    forall y ensures y in all + next <==> Within(anchor, edge, n + 1, y) {
      WithinNext(anchor, edge, n, y);
    }
    forall i, j | 0 <= i < |all| && 0 <= j < |next| ensures all[i] != next[j] {
      assert next[j] in next && all[i] in all;
    }
  }

  /** Once a depth is empty, everything derived lies at a smaller one. */
  lemma {:induction false} NothingDeeper<R(!new)>(anchor: seq<R>, edge: Edge<R>, n: nat, m: nat, y: R)
    requires EmptyDepth(anchor, edge, n) && Derived(anchor, edge, m, y)
    ensures exists k: nat :: k < n && Derived(anchor, edge, k, y)
    decreases m
  {
    assert m == n ==> !AtDepth(anchor, edge, m, y);
    if m > 0 && m >= n {
      var x :| Derived(anchor, edge, m - 1, x) && edge(x, y);
      NothingDeeper(anchor, edge, n, m - 1, x);
      var k: nat :| k < n && Derived(anchor, edge, k, x);
      assert Derived(anchor, edge, k + 1, y);
      assert !AtDepth(anchor, edge, n, y);
    }
  }

  lemma EmptyDepths<R(!new)>(anchor: seq<R>, edge: Edge<R>, n: nat, m: nat)
    requires n <= m && EmptyDepth(anchor, edge, n)
    ensures EmptyDepth(anchor, edge, m)
  {
    forall z ensures !AtDepth(anchor, edge, m, z) {
      if Derived(anchor, edge, m, z) {
        NothingDeeper(anchor, edge, n, m, z);
      }
    }
  }

  /** Where the loop stops, all that is reachable has been gathered. */
  lemma StoppedIsReachable<R(!new)>(anchor: seq<R>, edge: Edge<R>, all: seq<R>, n: nat)
    requires EmptyDepth(anchor, edge, n + 1) && forall y :: y in all <==> Within(anchor, edge, n, y)
    ensures forall y :: y in all <==> Reachable(anchor, edge, y)
  {
    forall y ensures y in all <==> Reachable(anchor, edge, y) {
      if Reachable(anchor, edge, y) {
        var m: nat :| Derived(anchor, edge, m, y);
        NothingDeeper(anchor, edge, n + 1, m, y);
      }
    }
  }

  ghost predicate IsReachable<R(!new)>(anchor: seq<R>, edge: Edge<R>, rows: seq<R>) {
    NoDuplicates(rows) && forall y :: y in rows <==> Reachable(anchor, edge, y)
  }

  lemma {:induction false} IterateIsReachable<R(!new), E>(le: Order<R>, anchor: seq<R>, term: Term<R, E>, edge: Edge<R>,
                                                            all: seq<R>, working: seq<R>, n: nat, left: nat)
    requires TotalOrder(le) && Distributes(term, edge) && AtStep(anchor, edge, all, working, n)
    requires Iterate(le, term, true, all, working, left).Ok?
    ensures IsReachable(anchor, edge, Iterate(le, term, true, all, working, left).value)
    decreases left
  {
    if working == [] {
      EmptyDepths(anchor, edge, n, n + 1);
      StoppedIsReachable(anchor, edge, all, n);
    } else {
      var next := NextWorking(le, true, term(working).value, all);
      NextIs(le, anchor, term, edge, all, working, n);
      if next == [] {
        StoppedIsReachable(anchor, edge, all, n);
      } else {
        IterateIsReachable(le, anchor, term, edge, all + next, next, n + 1, left - 1);
      }
    }
  }

  /** The working table of depth `n`: its rows in order, each once. */
  ghost predicate IsDepth<R(!new)>(le: Order<R>, anchor: seq<R>, edge: Edge<R>, n: nat, w: seq<R>) {
    Sorted(le, w) && forall y :: y in w <==> AtDepth(anchor, edge, n, y)
  }

  lemma SortedSameFirst<R(!new)>(le: Order<R>, a: seq<R>, b: seq<R>)
    requires TotalOrder(le) && Sorted(le, a) && Sorted(le, b) && (forall y :: y in a <==> y in b) && a != [] && b != []
    ensures a[0] == b[0]
  {
    assert a[0] in a && b[0] in b;
    var i :| 0 <= i < |b| && b[i] == a[0];
    var j :| 0 <= j < |a| && a[j] == b[0];
  }

  lemma HasElement<R(!new)>(s: seq<R>)
    requires s != []
    ensures exists y :: y in s
  {
    assert s[0] in s;
  }

  /** Rows have one sorted order. */
  lemma {:induction false} SortedUnique<R(!new)>(le: Order<R>, a: seq<R>, b: seq<R>)
    requires TotalOrder(le) && Sorted(le, a) && Sorted(le, b) && forall y :: y in a <==> y in b
    ensures a == b
    decreases |a|
  {
    if a == [] {
      if b != [] {
        HasElement(b);
      }
    } else {
      assert a[0] in a;
      SortedSameFirst(le, a, b);
      assert a == [a[0]] + a[1..] && b == [b[0]] + b[1..];
      forall y ensures y in a[1..] <==> y in b[1..] {
        assert y in a[1..] <==> y in a && y != a[0];
        assert y in b[1..] <==> y in b && y != b[0];
      }
      SortedUnique(le, a[1..], b[1..]);
    }
  }

  /** The term succeeds on the working tables of depths `n` up to, but not including, `limit`. */
  ghost predicate Works<R(!new), E>(le: Order<R>, anchor: seq<R>, term: Term<R, E>, edge: Edge<R>, n: nat, limit: nat) {
    forall k: nat, w :: n <= k < limit && IsDepth(le, anchor, edge, k, w) && w != [] ==> term(w).Ok?
  }

  /** Nothing is left to run on once a depth is empty. */
  lemma WorksOnNothing<R(!new), E>(le: Order<R>, anchor: seq<R>, term: Term<R, E>, edge: Edge<R>, n: nat, limit: nat)
    requires EmptyDepth(anchor, edge, n)
    ensures Works(le, anchor, term, edge, n, limit)
  {
    forall k: nat, w | n <= k < limit && IsDepth(le, anchor, edge, k, w) ensures w == [] {
      EmptyDepths(anchor, edge, n, k);
      if w != [] {
        HasElement(w);
      }
    }
  }

  lemma WorksStep<R(!new), E>(le: Order<R>, anchor: seq<R>, term: Term<R, E>, edge: Edge<R>, n: nat, limit: nat, working: seq<R>)
    requires TotalOrder(le) && IsDepth(le, anchor, edge, n, working) && working != [] && n < limit
    ensures Works(le, anchor, term, edge, n, limit) <==> term(working).Ok? && Works(le, anchor, term, edge, n + 1, limit)
  {
    forall w | IsDepth(le, anchor, edge, n, w) ensures w == working {
      SortedUnique(le, w, working);
    }
  }

  /** From depth `n` on the loop will succeed: the depths end before the limit, and the term works until then. */
  ghost predicate Succeeds<R(!new), E>(le: Order<R>, anchor: seq<R>, term: Term<R, E>, edge: Edge<R>, n: nat, limit: nat) {
    EmptyDepth(anchor, edge, limit) && Works(le, anchor, term, edge, n, limit)
  }

  lemma SucceedsAtEnd<R(!new), E>(le: Order<R>, anchor: seq<R>, term: Term<R, E>, edge: Edge<R>, n: nat, limit: nat)
    requires n <= limit && EmptyDepth(anchor, edge, n)
    ensures Succeeds(le, anchor, term, edge, n, limit)
  {
    EmptyDepths(anchor, edge, n, limit);
    WorksOnNothing(le, anchor, term, edge, n, limit);
  }

  lemma SucceedsStep<R(!new), E>(le: Order<R>, anchor: seq<R>, term: Term<R, E>, edge: Edge<R>, n: nat, limit: nat, working: seq<R>)
    requires TotalOrder(le) && IsDepth(le, anchor, edge, n, working) && working != [] && n < limit
    ensures Succeeds(le, anchor, term, edge, n, limit) <==> term(working).Ok? && Succeeds(le, anchor, term, edge, n + 1, limit)
  {
    WorksStep(le, anchor, term, edge, n, limit, working);
  }

  lemma {:induction false} IterateSucceeds<R(!new), E>(le: Order<R>, anchor: seq<R>, term: Term<R, E>, edge: Edge<R>,
                                                         all: seq<R>, working: seq<R>, n: nat, left: nat, limit: nat)
    requires TotalOrder(le) && Distributes(term, edge) && AtStep(anchor, edge, all, working, n) && Sorted(le, working)
    requires limit == n + left
    ensures Iterate(le, term, true, all, working, left).Ok? <==> Succeeds(le, anchor, term, edge, n, limit)
    decreases left
  {
    if working == [] {
      SucceedsAtEnd(le, anchor, term, edge, n, limit);
    } else if left == 0 {
      assert AtDepth(anchor, edge, n, working[0]);
    } else {
      assert IsDepth(le, anchor, edge, n, working);
      SucceedsStep(le, anchor, term, edge, n, limit, working);
      if term(working).Ok? {
        var next := NextWorking(le, true, term(working).value, all);
        NextIs(le, anchor, term, edge, all, working, n);
        if next == [] {
          SucceedsAtEnd(le, anchor, term, edge, n + 1, limit);
        } else {
          SortDedupIs(le, Fresh(term(working).value, all));
          IterateSucceeds(le, anchor, term, edge, all + next, next, n + 1, left - 1, limit);
        }
      }
    }
  }

  // ---------------------------------------------------------------- the results

  /** When a UNION recursive query returns rows, they are exactly the reachable ones, each once. */
  lemma ResultIsLeastFixpoint<R(!new), E>(le: Order<R>, anchor: seq<R>, term: Term<R, E>, edge: Edge<R>, limit: nat)
    requires TotalOrder(le) && Distributes(term, edge) && Evaluate(le, anchor, term, true, limit).Ok?
    ensures IsReachable(anchor, edge, Evaluate(le, anchor, term, true, limit).value)
  {
    StartIs(le, anchor, edge);
    var start := SortDedup(le, anchor);
    IterateIsReachable(le, anchor, term, edge, start, start, 0, limit);
  }

  /** It returns rows exactly when no row needs as many steps as the limit, and the term succeeds at every depth before. */
  lemma SucceedsExactly<R(!new), E>(le: Order<R>, anchor: seq<R>, term: Term<R, E>, edge: Edge<R>, limit: nat)
    requires TotalOrder(le) && Distributes(term, edge)
    ensures Evaluate(le, anchor, term, true, limit).Ok? <==> Succeeds(le, anchor, term, edge, 0, limit)
  {
    StartIs(le, anchor, edge);
    SortDedupIs(le, anchor);
    var start := SortDedup(le, anchor);
    IterateSucceeds(le, anchor, term, edge, start, start, 0, limit, limit);
  }

  lemma {:induction false} IterateFails<R(!new), E>(le: Order<R>, anchor: seq<R>, term: Term<R, E>, edge: Edge<R>,
                                                      all: seq<R>, working: seq<R>, n: nat, left: nat, limit: nat)
    requires TotalOrder(le) && Distributes(term, edge) && AtStep(anchor, edge, all, working, n) && Sorted(le, working)
    requires limit == n + left && Iterate(le, term, true, all, working, left).Err?
    ensures Iterate(le, term, true, all, working, left).error == TooManyIterations <==> Works(le, anchor, term, edge, n, limit)
    decreases left
  {
    if left > 0 {
      assert IsDepth(le, anchor, edge, n, working);
      WorksStep(le, anchor, term, edge, n, limit, working);
      if term(working).Ok? {
        var next := NextWorking(le, true, term(working).value, all);
        NextIs(le, anchor, term, edge, all, working, n);
        SortDedupIs(le, Fresh(term(working).value, all));
        IterateFails(le, anchor, term, edge, all + next, next, n + 1, left - 1, limit);
      }
    }
  }

  /** When it fails, it is for the limit if the term succeeds at every depth before it, and for the term otherwise. */
  lemma FailureIs<R(!new), E>(le: Order<R>, anchor: seq<R>, term: Term<R, E>, edge: Edge<R>, limit: nat)
    requires TotalOrder(le) && Distributes(term, edge) && Evaluate(le, anchor, term, true, limit).Err?
    ensures Evaluate(le, anchor, term, true, limit).error == TooManyIterations <==> Works(le, anchor, term, edge, 0, limit)
  {
    StartIs(le, anchor, edge);
    SortDedupIs(le, anchor);
    var start := SortDedup(le, anchor);
    IterateFails(le, anchor, term, edge, start, start, 0, limit, limit);
  }

  // ---------------------------------------------------------------- the order of the rows

  /** `x` may stand before `y`: it is derived in fewer steps, or in as many and ordered before it. */
  ghost predicate Precedes<R(!new)>(le: Order<R>, anchor: seq<R>, edge: Edge<R>, x: R, y: R) {
    forall a: nat, b: nat :: AtDepth(anchor, edge, a, x) && AtDepth(anchor, edge, b, y) ==> a < b || (a == b && le(x, y))
  }

  ghost predicate InDepthOrder<R(!new)>(le: Order<R>, anchor: seq<R>, edge: Edge<R>, rows: seq<R>) {
    forall i, j :: 0 <= i < j < |rows| ==> Precedes(le, anchor, edge, rows[i], rows[j])
  }

  lemma SameDepth<R(!new)>(le: Order<R>, anchor: seq<R>, edge: Edge<R>, n: nat, x: R, y: R)
    requires AtDepth(anchor, edge, n, x) && AtDepth(anchor, edge, n, y) && le(x, y)
    ensures Precedes(le, anchor, edge, x, y)
  {
    forall a: nat | AtDepth(anchor, edge, a, x) ensures a == n {
    }
    forall b: nat | AtDepth(anchor, edge, b, y) ensures b == n {
    }
  }

  lemma DeeperIsLater<R(!new)>(le: Order<R>, anchor: seq<R>, edge: Edge<R>, n: nat, x: R, y: R)
    requires Within(anchor, edge, n, x) && AtDepth(anchor, edge, n + 1, y)
    ensures Precedes(le, anchor, edge, x, y)
  {
    forall a: nat | AtDepth(anchor, edge, a, x) ensures a <= n {
    }
    forall b: nat | AtDepth(anchor, edge, b, y) ensures b == n + 1 {
    }
  }

  lemma DepthInOrder<R(!new)>(le: Order<R>, anchor: seq<R>, edge: Edge<R>, n: nat, w: seq<R>)
    requires Sorted(le, w) && forall y :: y in w ==> AtDepth(anchor, edge, n, y)
    ensures InDepthOrder(le, anchor, edge, w)
  {
    forall i, j | 0 <= i < j < |w| ensures Precedes(le, anchor, edge, w[i], w[j]) {
      assert w[i] in w && w[j] in w;
      SameDepth(le, anchor, edge, n, w[i], w[j]);
    }
  }

  lemma DeeperInOrder<R(!new)>(le: Order<R>, anchor: seq<R>, edge: Edge<R>, all: seq<R>, next: seq<R>, n: nat)
    requires InDepthOrder(le, anchor, edge, all) && InDepthOrder(le, anchor, edge, next)
    requires (forall x :: x in all ==> Within(anchor, edge, n, x)) && forall y :: y in next ==> AtDepth(anchor, edge, n + 1, y)
    ensures InDepthOrder(le, anchor, edge, all + next)
  {
    var rows := all + next;
    forall i, j | 0 <= i < j < |rows| ensures Precedes(le, anchor, edge, rows[i], rows[j]) {
      if i < |all| && j >= |all| {
        assert all[i] in all && next[j - |all|] in next;
        DeeperIsLater(le, anchor, edge, n, rows[i], rows[j]);
      } else if i >= |all| {
        assert rows[i] == next[i - |all|] && rows[j] == next[j - |all|];
      }
    }
  }

  lemma {:induction false} IterateInOrder<R(!new), E>(le: Order<R>, anchor: seq<R>, term: Term<R, E>, edge: Edge<R>,
                                                        all: seq<R>, working: seq<R>, n: nat, left: nat)
    requires TotalOrder(le) && Distributes(term, edge) && AtStep(anchor, edge, all, working, n) && InDepthOrder(le, anchor, edge, all)
    requires Iterate(le, term, true, all, working, left).Ok?
    ensures InDepthOrder(le, anchor, edge, Iterate(le, term, true, all, working, left).value)
    decreases left
  {
    if working != [] {
      var next := NextWorking(le, true, term(working).value, all);
      NextIs(le, anchor, term, edge, all, working, n);
      if next != [] {
        SortDedupIs(le, Fresh(term(working).value, all));
        DepthInOrder(le, anchor, edge, n + 1, next);
        DeeperInOrder(le, anchor, edge, all, next, n);
        IterateInOrder(le, anchor, term, edge, all + next, next, n + 1, left - 1);
      }
    }
  }

  /** UNION returns its rows by the number of steps they take, and in order among those that take the same. */
  lemma ResultIsInDepthOrder<R(!new), E>(le: Order<R>, anchor: seq<R>, term: Term<R, E>, edge: Edge<R>, limit: nat)
    requires TotalOrder(le) && Distributes(term, edge) && Evaluate(le, anchor, term, true, limit).Ok?
    ensures InDepthOrder(le, anchor, edge, Evaluate(le, anchor, term, true, limit).value)
  {
    StartIs(le, anchor, edge);
    SortDedupIs(le, anchor);
    var start := SortDedup(le, anchor);
    DepthInOrder(le, anchor, edge, 0, start);
    IterateInOrder(le, anchor, term, edge, start, start, 0, limit);
  }

  // ---------------------------------------------------------------- UNION ALL

  /** Without dedup, after `n` iterations: all rows within `n` steps, and the working table holds those of exactly `n`. */
  ghost predicate AtWalk<R(!new)>(anchor: seq<R>, edge: Edge<R>, all: seq<R>, working: seq<R>, n: nat) {
    && (forall y :: y in all <==> Within(anchor, edge, n, y))
    && forall y :: y in working <==> Derived(anchor, edge, n, y)
  }

  ghost predicate NoWalk<R(!new)>(anchor: seq<R>, edge: Edge<R>, n: nat) {
    forall y :: !Derived(anchor, edge, n, y)
  }

  lemma {:induction false} NoLongerWalk<R(!new)>(anchor: seq<R>, edge: Edge<R>, n: nat, m: nat)
    requires n <= m && NoWalk(anchor, edge, n)
    ensures NoWalk(anchor, edge, m)
    decreases m
  {
    if n < m {
      NoLongerWalk(anchor, edge, n, m - 1);
    }
  }

  lemma NextWalk<R(!new), E>(anchor: seq<R>, term: Term<R, E>, edge: Edge<R>, all: seq<R>, working: seq<R>, n: nat)
    requires Distributes(term, edge) && AtWalk(anchor, edge, all, working, n) && term(working).Ok?
    ensures AtWalk(anchor, edge, all + term(working).value, term(working).value, n + 1)
  {
    var next := term(working).value;
    forall y ensures y in next <==> Derived(anchor, edge, n + 1, y) {
      assert y in next <==> exists x :: x in working && edge(x, y);
    }
    forall y ensures y in all + next <==> Within(anchor, edge, n + 1, y) {
      if Within(anchor, edge, n + 1, y) && y !in all {
        var k: nat :| k <= n + 1 && Derived(anchor, edge, k, y);
        assert k == n + 1;
      }
    }
  }

  lemma WalkedAll<R(!new)>(anchor: seq<R>, edge: Edge<R>, all: seq<R>, n: nat)
    requires NoWalk(anchor, edge, n + 1) && forall y :: y in all <==> Within(anchor, edge, n, y)
    ensures forall y :: y in all <==> Reachable(anchor, edge, y)
  {
    forall y ensures y in all <==> Reachable(anchor, edge, y) {
      if m: nat :| Derived(anchor, edge, m, y) && m > n {
        NoLongerWalk(anchor, edge, n + 1, m);
      }
    }
  }

  /** The `n`-th working table of UNION ALL, if the term succeeds on all before it. */
  ghost function Walk<R(!new), E>(anchor: seq<R>, term: Term<R, E>, n: nat): Option<seq<R>> {
    if n == 0 then Some(anchor)
    else
      match Walk(anchor, term, n - 1)
      case None => None
      case Some(w) =>
        if w == [] then Some([])
        else match term(w) case Ok(rows) => Some(rows) case Err(_) => None
  }

  lemma {:induction false} WalkEnds<R(!new), E>(anchor: seq<R>, term: Term<R, E>, n: nat, m: nat)
    requires n <= m
    ensures Walk(anchor, term, n) == Some([]) ==> Walk(anchor, term, m) == Some([])
    ensures Walk(anchor, term, n).None? ==> Walk(anchor, term, m).None?
    decreases m
  {
    if n < m {
      WalkEnds(anchor, term, n, m - 1);
    }
  }

  /** The outcome of UNION ALL, by its working tables. */
  ghost predicate WalkedOut<R(!new), E>(anchor: seq<R>, term: Term<R, E>, edge: Edge<R>, limit: nat) {
    Walk(anchor, term, limit).Some? && NoWalk(anchor, edge, limit)
  }

  lemma {:induction false} IterateWalks<R(!new), E>(le: Order<R>, anchor: seq<R>, term: Term<R, E>, edge: Edge<R>,
                                                      all: seq<R>, working: seq<R>, n: nat, left: nat, limit: nat)
    requires Distributes(term, edge) && AtWalk(anchor, edge, all, working, n) && Walk(anchor, term, n) == Some(working)
    requires limit == n + left
    ensures Iterate(le, term, false, all, working, left).Ok? <==> WalkedOut(anchor, term, edge, limit)
    ensures var r := Iterate(le, term, false, all, working, left);
      r.Ok? ==> forall y :: y in r.value <==> Reachable(anchor, edge, y)
    decreases left
  {
    if working == [] {
      NoLongerWalk(anchor, edge, n, limit);
      NoLongerWalk(anchor, edge, n, n + 1);
      WalkedAll(anchor, edge, all, n);
      WalkEnds(anchor, term, n, limit);
    } else if left == 0 {
      assert Derived(anchor, edge, n, working[0]);
    } else if term(working).Err? {
      WalkEnds(anchor, term, n + 1, limit);
    } else {
      var next := term(working).value;
      NextWalk(anchor, term, edge, all, working, n);
      if next == [] {
        NoLongerWalk(anchor, edge, n + 1, limit);
        WalkedAll(anchor, edge, all, n);
        WalkEnds(anchor, term, n + 1, limit);
      } else {
        IterateWalks(le, anchor, term, edge, all + next, next, n + 1, left - 1, limit);
      }
    }
  }

  /**
    UNION ALL gathers the same set, but succeeds only if the term succeeds on every working table and
    no derivation, with or without repeated rows, is as long as the limit: a cycle always exhausts it.
  */
  lemma UnionAllExactly<R(!new), E>(le: Order<R>, anchor: seq<R>, term: Term<R, E>, edge: Edge<R>, limit: nat)
    requires Distributes(term, edge)
    ensures Evaluate(le, anchor, term, false, limit).Ok? <==> WalkedOut(anchor, term, edge, limit)
    ensures var r := Evaluate(le, anchor, term, false, limit);
      r.Ok? ==> forall y :: y in r.value <==> Reachable(anchor, edge, y)
  {
    forall y ensures y in anchor <==> Within(anchor, edge, 0, y) {
      assert Derived(anchor, edge, 0, y) <==> y in anchor;
    }
    IterateWalks(le, anchor, term, edge, anchor, anchor, 0, limit, limit);
  }

  /** The working tables up to the `n`-th, one after the other. */
  ghost function Walked<R(!new), E>(anchor: seq<R>, term: Term<R, E>, n: nat): seq<R> {
    if n == 0 then anchor
    else Walked(anchor, term, n - 1) + (match Walk(anchor, term, n) case Some(w) => w case None => [])
  }

  lemma {:induction false} WalkedNoFurther<R(!new), E>(anchor: seq<R>, term: Term<R, E>, n: nat, m: nat)
    requires n <= m && (Walk(anchor, term, n) == Some([]) || (n < m && Walk(anchor, term, n + 1) == Some([])))
    ensures Walked(anchor, term, m) == Walked(anchor, term, n)
    decreases m
  {
    if n < m {
      WalkEnds(anchor, term, n, m);
      WalkEnds(anchor, term, n + 1, m);
      if n < m - 1 || Walk(anchor, term, n) == Some([]) {
        WalkedNoFurther(anchor, term, n, m - 1);
      }
    }
  }

  lemma {:induction false} IterateWalked<R(!new), E>(le: Order<R>, anchor: seq<R>, term: Term<R, E>, all: seq<R>, working: seq<R>, n: nat, left: nat)
    requires Walk(anchor, term, n) == Some(working) && all == Walked(anchor, term, n)
    requires Iterate(le, term, false, all, working, left).Ok?
    ensures Iterate(le, term, false, all, working, left).value == Walked(anchor, term, n + left)
    decreases left
  {
    if working == [] {
      WalkedNoFurther(anchor, term, n, n + left);
    } else {
      var next := term(working).value;
      if next == [] {
        WalkedNoFurther(anchor, term, n, n + left);
      } else {
        IterateWalked(le, anchor, term, all + next, next, n + 1, left - 1);
      }
    }
  }

  /** UNION ALL returns the anchor's rows and then those of each iteration, as the term gave them. */
  lemma UnionAllInOrder<R(!new), E>(le: Order<R>, anchor: seq<R>, term: Term<R, E>, limit: nat)
    requires Evaluate(le, anchor, term, false, limit).Ok?
    ensures Evaluate(le, anchor, term, false, limit).value == Walked(anchor, term, limit)
  {
    IterateWalked(le, anchor, term, anchor, anchor, 0, limit);
  }

  // ---------------------------------------------------------------- how often UNION ALL returns a row

  /** The rows each row leads to, as often as it does. */
  type Derive<!R> = R -> seq<R>

  ghost function Flat<R(!new)>(derive: Derive<R>, s: seq<R>): seq<R> {
    if s == [] then [] else Flat(derive, s[..|s| - 1]) + derive(s[|s| - 1])
  }

  /** The term derives from a working table exactly what its rows lead to, counting repetitions. */
  ghost predicate Multiplies<R(!new), E>(term: Term<R, E>, derive: Derive<R>) {
    forall w :: term(w).Ok? ==> multiset(term(w).value) == multiset(Flat(derive, w))
  }

  /** In how many ways `y` is derived from the rows of `s` in exactly `n` steps. */
  ghost function Ways<R(!new)>(derive: Derive<R>, n: nat, s: seq<R>, y: R): nat
    decreases n, |s|
  {
    if s == [] then 0
    else
      var x := s[|s| - 1];
      Ways(derive, n, s[..|s| - 1], y) + if n > 0 then Ways(derive, n - 1, derive(x), y) else if x == y then 1 else 0
  }

  /** In how many ways in one to `m` steps. */
  ghost function WaysWithin<R(!new)>(derive: Derive<R>, m: nat, s: seq<R>, y: R): nat {
    if m == 0 then 0 else WaysWithin(derive, m - 1, s, y) + Ways(derive, m, s, y)
  }

  lemma {:induction false} WaysAppend<R(!new)>(derive: Derive<R>, n: nat, a: seq<R>, b: seq<R>, y: R)
    ensures Ways(derive, n, a + b, y) == Ways(derive, n, a, y) + Ways(derive, n, b, y)
    decreases |b|
  {
    if b == [] {
      assert a + b == a;
    } else {
      assert (a + b)[..|a + b| - 1] == a + b[..|b| - 1];
      WaysAppend(derive, n, a, b[..|b| - 1], y);
    }
  }

  /** One step first, then the rest. */
  lemma {:induction false} WaysFlat<R(!new)>(derive: Derive<R>, n: nat, s: seq<R>, y: R)
    ensures Ways(derive, n + 1, s, y) == Ways(derive, n, Flat(derive, s), y)
    decreases |s|
  {
    if s != [] {
      WaysFlat(derive, n, s[..|s| - 1], y);
      WaysAppend(derive, n, Flat(derive, s[..|s| - 1]), derive(s[|s| - 1]), y);
    }
  }

  lemma {:induction false} WaysZero<R(!new)>(derive: Derive<R>, s: seq<R>, y: R)
    ensures Ways(derive, 0, s, y) == multiset(s)[y]
    decreases |s|
  {
    if s != [] {
      WaysZero(derive, s[..|s| - 1], y);
      assert s == s[..|s| - 1] + [s[|s| - 1]];
    }
  }

  lemma WaysWithout<R(!new)>(derive: Derive<R>, n: nat, s: seq<R>, i: nat, y: R)
    requires i < |s|
    ensures Ways(derive, n, s, y) == Ways(derive, n, Without(s, i), y) + Ways(derive, n, [s[i]], y)
  {
    assert s == (s[..i] + [s[i]]) + s[i + 1..];
    WaysAppend(derive, n, s[..i] + [s[i]], s[i + 1..], y);
    WaysAppend(derive, n, s[..i], [s[i]], y);
    WaysAppend(derive, n, s[..i], s[i + 1..], y);
  }

  /** The order of the rows does not matter. */
  lemma {:induction false} WaysPermute<R(!new)>(derive: Derive<R>, n: nat, a: seq<R>, b: seq<R>, y: R)
    requires multiset(a) == multiset(b)
    ensures Ways(derive, n, a, y) == Ways(derive, n, b, y)
    decreases |a|
  {
    SameLength(a, b);
    if a != [] {
      assert a[0] in multiset(a);
      var i := Find(b, a[0]);
      WithoutMultiset(a, 0);
      WithoutMultiset(b, i);
      WaysPermute(derive, n, Without(a, 0), Without(b, i), y);
      WaysWithout(derive, n, a, 0, y);
      WaysWithout(derive, n, b, i, y);
    }
  }

  lemma {:induction false} WaysShift<R(!new)>(derive: Derive<R>, m: nat, s: seq<R>, next: seq<R>, y: R)
    requires multiset(next) == multiset(Flat(derive, s))
    ensures WaysWithin(derive, m + 1, s, y) == multiset(next)[y] + WaysWithin(derive, m, next, y)
  {
    WaysFlat(derive, m, s, y);
    WaysPermute(derive, m, next, Flat(derive, s), y);
    if m == 0 {
      WaysZero(derive, next, y);
      assert WaysWithin(derive, 1, s, y) == WaysWithin(derive, 0, s, y) + Ways(derive, 1, s, y);
    } else {
      WaysShift(derive, m - 1, s, next, y);
    }
  }

  lemma {:induction false} NoWays<R(!new)>(derive: Derive<R>, m: nat, y: R)
    ensures WaysWithin(derive, m, [], y) == 0
  {
    if m > 0 {
      NoWays(derive, m - 1, y);
    }
  }

  /** One round of the UNION ALL loop. */
  lemma RoundOf<R(!new), E>(le: Order<R>, term: Term<R, E>, all: seq<R>, working: seq<R>, left: nat)
    requires working != [] && Iterate(le, term, false, all, working, left).Ok?
    ensures left > 0 && term(working).Ok?
    ensures var next := term(working).value;
      Iterate(le, term, false, all, working, left) ==
      if next == [] then Ok(all) else Iterate(le, term, false, all + next, next, left - 1)
  {
  }

  lemma RoundCounts<R(!new), E>(term: Term<R, E>, derive: Derive<R>, working: seq<R>, m: nat, y: R)
    requires Multiplies(term, derive) && term(working).Ok?
    ensures WaysWithin(derive, m + 1, working, y) == multiset(term(working).value)[y] + WaysWithin(derive, m, term(working).value, y)
  {
    WaysShift(derive, m, working, term(working).value, y);
  }

  lemma {:induction false} IterateCounts<R(!new), E>(le: Order<R>, term: Term<R, E>, derive: Derive<R>,
                                                       all: seq<R>, working: seq<R>, left: nat, y: R)
    requires Multiplies(term, derive) && Iterate(le, term, false, all, working, left).Ok?
    ensures multiset(Iterate(le, term, false, all, working, left).value)[y] ==
            multiset(all)[y] + WaysWithin(derive, left, working, y)
    decreases left
  {
    if working == [] {
      NoWays(derive, left, y);
    } else {
      RoundOf(le, term, all, working, left);
      RoundCounts(term, derive, working, left - 1, y);
      var next := term(working).value;
      if next == [] {
        NoWays(derive, left - 1, y);
      } else {
        IterateCounts(le, term, derive, all + next, next, left - 1, y);
        CountAppend(all, next, y);
      }
    }
  }

  lemma CountAppend<R(!new)>(a: seq<R>, b: seq<R>, y: R)
    ensures multiset(a + b)[y] == multiset(a)[y] + multiset(b)[y]
  {
  }

  /** UNION ALL returns each row as often as it can be derived from the anchor within the limit. */
  lemma UnionAllCounts<R(!new), E>(le: Order<R>, anchor: seq<R>, term: Term<R, E>, derive: Derive<R>, limit: nat, y: R)
    requires Multiplies(term, derive) && Evaluate(le, anchor, term, false, limit).Ok?
    ensures multiset(Evaluate(le, anchor, term, false, limit).value)[y] ==
            Ways(derive, 0, anchor, y) + WaysWithin(derive, limit, anchor, y)
  {
    WaysZero(derive, anchor, y);
    IterateCounts(le, term, derive, anchor, anchor, limit, y);
  }
}
