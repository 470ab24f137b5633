/** base.py `iter_commits_and_parents`: a walk from some commits along their
    parent links that yields each commit once. */
module History {

  import opened Wrappers
  import opened Sequences
  import opened Objects
  import opened Commits

  /** How the walk reads a commit: `get_commit` over some object store. */
  type CommitReader = Oid -> Outcome<Commit>

  /** The parent `read` reports for `oid`; `None` when reading fails. */
  function ParentOf(read: CommitReader, oid: Oid): Option<Oid> {
    if read(oid).Ok? then read(oid).value.parent else None
  }

  /** `get_commit` over a store succeeds only on the store's own oids, a
      finite set. */
  lemma StoreReaderKnown(store: ObjectStore)
    ensures forall o | GetCommit(store, o).Ok? :: o in store.Keys
  {
  }

  /** Each oid of `ys` is a start oid or the parent of an oid before it. */
  ghost predicate GeneratedFrom(read: CommitReader, starts: seq<Option<Oid>>, ys: seq<Oid>) {
    forall i | 0 <= i < |ys| ::
      Some(ys[i]) in starts || exists j :: 0 <= j < i && ParentOf(read, ys[j]) == Some(ys[i])
  }

  /** `ys` holds every truthy start oid and the truthy parent of each of its
      own oids. */
  ghost predicate Closed(read: CommitReader, starts: seq<Option<Oid>>, ys: seq<Oid>) {
    && (forall k | 0 <= k < |starts| && Truthy(starts[k]) :: starts[k].value in ys)
    && (forall i | 0 <= i < |ys| && Truthy(ParentOf(read, ys[i])) :: ParentOf(read, ys[i]).value in ys)
  }

  /** Depth first: right after an oid comes its parent, unless the parent is
      falsy or was yielded already. */
  ghost predicate ParentFirst(read: CommitReader, ys: seq<Oid>) {
    forall i | 0 <= i < |ys| - 1 ::
      Truthy(ParentOf(read, ys[i])) && ParentOf(read, ys[i]).value !in ys[..i + 1]
      ==> ys[i + 1] == ParentOf(read, ys[i]).value
  }

  /** The first truthy start oid not in `seen`: where the walk goes when it
      has no parent to follow. */
  function NextStart(starts: seq<Option<Oid>>, seen: seq<Oid>): (r: Option<Oid>)
    ensures r.Some? ==> Truthy(r) && r.value !in seen && r in starts
    ensures r.None? ==> forall k | 0 <= k < |starts| && Truthy(starts[k]) :: starts[k].value in seen
    decreases |starts|
  {
    if starts == [] then None
    else if Truthy(starts[0]) && starts[0].value !in seen then starts[0]
    else NextStart(starts[1..], seen)
  }

  /** Right after `ys[..i]` the walk follows a parent: that of `ys[i - 1]`,
      truthy and not yielded yet. */
  ghost predicate Following(read: CommitReader, ys: seq<Oid>, i: int) {
    && 0 < i <= |ys|
    && Truthy(ParentOf(read, ys[i - 1]))
    && ParentOf(read, ys[i - 1]).value !in ys[..i]
  }

  /** Whenever there is no parent to follow, the next oid is the first start
      oid not yielded yet: the start oids are taken in their order. */
  ghost predicate StartOrder(read: CommitReader, starts: seq<Option<Oid>>, ys: seq<Oid>) {
    forall i | 0 <= i < |ys| && !Following(read, ys, i) :: NextStart(starts, ys[..i]) == Some(ys[i])
  }

  /** `iter_commits_and_parents(oids)`, run to its end: the oids it yields,
      and the error that stopped it, if any. The deque with `popleft` and
      `appendleft` is a sequence taken from and pushed to at the front. A
      commit that cannot be read stops the walk after it was yielded. */
  method IterCommitsAndParents(read: CommitReader, known: set<Oid>, oids: seq<Option<Oid>>)
    returns (yielded: seq<Oid>, err: Option<Error>)
    requires forall o | read(o).Ok? :: o in known
    ensures Distinct(yielded)
    ensures forall i | 0 <= i < |yielded| :: yielded[i] != ""
    ensures GeneratedFrom(read, oids, yielded)
    ensures ParentFirst(read, yielded)
    ensures StartOrder(read, oids, yielded)
    ensures err.None? ==> forall i | 0 <= i < |yielded| :: read(yielded[i]).Ok?
    ensures err.None? ==> Closed(read, oids, yielded)
    ensures err.Some? ==>
      && yielded != []
      && read(yielded[|yielded| - 1]) == Err(err.value)
      && forall i | 0 <= i < |yielded| - 1 :: read(yielded[i]).Ok?
  {
    var queue := oids;
    var visited: set<Oid> := {};
    yielded := [];
    err := None;
    // the deque is the start oids from `k` on, after the parent of the oid
    // yielded last when `front` holds
    ghost var k: nat, front := 0, false;
    WalkStart(read, oids);
    while queue != []
      invariant LoopInv(read, oids, queue, visited, yielded, k, front)
      decreases |known - visited|, |queue|
    {
      var o := queue[0];
      if !Truthy(o) || o.value in visited {
        LoopSkip(read, oids, queue, visited, yielded, k, front);
        queue := queue[1..];
        k, front := if front then k else k + 1, false;
      } else {
        var oid := o.value;
        var c := read(oid);
        if c.Err? {
          LoopStop(read, oids, queue, visited, yielded, k, front);
          yielded := yielded + [oid];
          err := Some(c.error);
          return;
        }
        LoopYield(read, oids, queue, visited, yielded, k, front);
        FewerUnvisited(known, visited, oid);
        queue := [c.value.parent] + queue[1..];
        visited, yielded := visited + {oid}, yielded + [oid];
        k, front := if front then k else k + 1, true;
      }
    }
    WalkDone(read, oids, visited, yielded);
  }

  /** The loop invariant: the walk's own, and the order of the start oids. */
  ghost predicate LoopInv(read: CommitReader, oids: seq<Option<Oid>>, queue: seq<Option<Oid>>,
                          visited: set<Oid>, yielded: seq<Oid>, k: nat, front: bool) {
    WalkInv(read, oids, queue, visited, yielded) && StartsInv(read, oids, queue, yielded, k, front)
  }

  lemma LoopSkip(read: CommitReader, oids: seq<Option<Oid>>, queue: seq<Option<Oid>>,
                 visited: set<Oid>, yielded: seq<Oid>, k: nat, front: bool)
    requires LoopInv(read, oids, queue, visited, yielded, k, front)
    requires queue != [] && (!Truthy(queue[0]) || queue[0].value in visited)
    ensures LoopInv(read, oids, queue[1..], visited, yielded, if front then k else k + 1, false)
  {
    WalkSkip(read, oids, queue, visited, yielded);
    StartsSkip(read, oids, queue, yielded, k, front);
  }

  lemma LoopYield(read: CommitReader, oids: seq<Option<Oid>>, queue: seq<Option<Oid>>,
                  visited: set<Oid>, yielded: seq<Oid>, k: nat, front: bool)
    requires LoopInv(read, oids, queue, visited, yielded, k, front)
    requires queue != [] && Truthy(queue[0]) && queue[0].value !in visited
    requires read(queue[0].value).Ok?
    ensures var oid := queue[0].value;
      LoopInv(read, oids, [read(oid).value.parent] + queue[1..], visited + {oid}, yielded + [oid],
              if front then k else k + 1, true)
  {
    WalkYield(read, oids, queue, visited, yielded);
    StartsYield(read, oids, queue, yielded, k, front);
  }

  /** Yielding an oid whose commit cannot be read: what the method promises
      about the oids yielded before it, and the start order. */
  lemma LoopStop(read: CommitReader, oids: seq<Option<Oid>>, queue: seq<Option<Oid>>,
                 visited: set<Oid>, yielded: seq<Oid>, k: nat, front: bool)
    requires LoopInv(read, oids, queue, visited, yielded, k, front)
    requires queue != [] && Truthy(queue[0]) && queue[0].value !in visited
    ensures var ys := yielded + [queue[0].value];
      && Distinct(ys)
      && (forall i | 0 <= i < |ys| :: ys[i] != "")
      && GeneratedFrom(read, oids, ys)
      && ParentFirst(read, ys)
      && StartOrder(read, oids, ys)
      && forall i | 0 <= i < |ys| - 1 :: read(ys[i]).Ok?
  {
    WalkExtend(read, oids, queue, visited, yielded);
    StartsNext(read, oids, queue, yielded, k, front);
  }

  /** Visiting a known oid for the first time leaves fewer to visit. */
  lemma FewerUnvisited(known: set<Oid>, visited: set<Oid>, oid: Oid)
    requires oid in known && oid !in visited
    ensures |known - (visited + {oid})| < |known - visited|
  {
    var r := known - visited;
    assert known - (visited + {oid}) == r - {oid};
    assert r == (r - {oid}) + {oid};
  }

  // ---------------------------------------------------------------------
  // The loop invariant, step by step
  // ---------------------------------------------------------------------

  /** What holds each time the walk tests whether the deque is empty. */
  ghost predicate WalkInv(read: CommitReader, oids: seq<Option<Oid>>, queue: seq<Option<Oid>>,
                          visited: set<Oid>, yielded: seq<Oid>) {
    && (forall y :: y in visited <==> y in yielded)
    && Distinct(yielded)
    && (forall i | 0 <= i < |yielded| :: yielded[i] != "")
    && (forall i | 0 <= i < |yielded| :: read(yielded[i]).Ok?)
    && GeneratedFrom(read, oids, yielded)
    && ParentFirst(read, yielded)
    // every truthy oid waiting is a start oid or the parent of a yielded one
    && (forall k | 0 <= k < |queue| && Truthy(queue[k]) ::
          queue[k] in oids || exists j :: 0 <= j < |yielded| && ParentOf(read, yielded[j]) == queue[k])
    // every truthy start oid and parent was visited or is still waiting
    && (forall k | 0 <= k < |oids| && Truthy(oids[k]) :: oids[k].value in visited || oids[k] in queue)
    && (forall i | 0 <= i < |yielded| && Truthy(ParentOf(read, yielded[i])) ::
          ParentOf(read, yielded[i]).value in visited || ParentOf(read, yielded[i]) in queue)
    // the parent of the oid yielded last, if still unvisited, is next
    && (yielded != [] && Truthy(ParentOf(read, yielded[|yielded| - 1]))
        && ParentOf(read, yielded[|yielded| - 1]).value !in visited
        ==> queue != [] && queue[0] == ParentOf(read, yielded[|yielded| - 1]))
  }

  lemma WalkStart(read: CommitReader, oids: seq<Option<Oid>>)
    ensures WalkInv(read, oids, oids, {}, [])
  {
  }

  /** Popping a falsy or visited oid keeps the invariant. */
  lemma WalkSkip(read: CommitReader, oids: seq<Option<Oid>>, queue: seq<Option<Oid>>,
                 visited: set<Oid>, yielded: seq<Oid>)
    requires WalkInv(read, oids, queue, visited, yielded)
    requires queue != [] && (!Truthy(queue[0]) || queue[0].value in visited)
    ensures WalkInv(read, oids, queue[1..], visited, yielded)
  {
    var q := queue[1..];
    assert forall k | 1 <= k < |queue| :: queue[k] == q[k - 1];
    forall x | x in queue && Truthy(x) && x.value !in visited ensures x in q {
      var k :| 0 <= k < |queue| && queue[k] == x;
      assert k != 0;
    }
  }

  /** Yielding a new oid keeps what the method promises about `yielded`. */
  lemma WalkExtend(read: CommitReader, oids: seq<Option<Oid>>, queue: seq<Option<Oid>>,
                   visited: set<Oid>, yielded: seq<Oid>)
    requires WalkInv(read, oids, queue, visited, yielded)
    requires queue != [] && Truthy(queue[0]) && queue[0].value !in visited
    ensures var ys := yielded + [queue[0].value];
      && Distinct(ys)
      && (forall i | 0 <= i < |ys| :: ys[i] != "")
      && GeneratedFrom(read, oids, ys)
      && ParentFirst(read, ys)
      && forall i | 0 <= i < |ys| - 1 :: read(ys[i]).Ok?
  {
    var oid := queue[0].value;
    var ys := yielded + [oid];
    assert forall i | 0 <= i < |yielded| :: ys[i] == yielded[i];
    ExtendGenerated(read, oids, yielded, queue[0]);
    ExtendParentFirst(read, yielded, oid);
  }

  lemma ExtendGenerated(read: CommitReader, oids: seq<Option<Oid>>, yielded: seq<Oid>, o: Option<Oid>)
    requires GeneratedFrom(read, oids, yielded) && o.Some?
    requires o in oids || exists j :: 0 <= j < |yielded| && ParentOf(read, yielded[j]) == o
    ensures GeneratedFrom(read, oids, yielded + [o.value])
  {
    var ys := yielded + [o.value];
    forall i | 0 <= i < |ys|
      ensures Some(ys[i]) in oids || exists j :: 0 <= j < i && ParentOf(read, ys[j]) == Some(ys[i])
    {
      if i == |yielded| {
        if o !in oids {
          var j :| 0 <= j < |yielded| && ParentOf(read, yielded[j]) == o;
          assert ys[j] == yielded[j];
        }
      } else {
        assert ys[i] == yielded[i];
        if Some(ys[i]) !in oids {
          var j :| 0 <= j < i && ParentOf(read, yielded[j]) == Some(yielded[i]);
          assert ys[j] == yielded[j];
        }
      }
    }
  }

  lemma ExtendParentFirst(read: CommitReader, yielded: seq<Oid>, oid: Oid)
    requires ParentFirst(read, yielded)
    requires yielded != [] && Truthy(ParentOf(read, yielded[|yielded| - 1]))
      && ParentOf(read, yielded[|yielded| - 1]).value !in yielded
      ==> oid == ParentOf(read, yielded[|yielded| - 1]).value
    ensures ParentFirst(read, yielded + [oid])
  {
    var ys := yielded + [oid];
    forall i | 0 <= i < |ys| - 1 && Truthy(ParentOf(read, ys[i])) && ParentOf(read, ys[i]).value !in ys[..i + 1]
      ensures ys[i + 1] == ParentOf(read, ys[i]).value
    {
      assert ys[i] == yielded[i];
      assert ys[..i + 1] == yielded[..i + 1];
      if i == |yielded| - 1 {
        assert yielded[..i + 1] == yielded;
      } else {
        assert ys[i + 1] == yielded[i + 1];
      }
    }
  }

  /** Yielding a new oid whose commit reads, and pushing its parent to the
      front, keeps the invariant. */
  lemma WalkYield(read: CommitReader, oids: seq<Option<Oid>>, queue: seq<Option<Oid>>,
                  visited: set<Oid>, yielded: seq<Oid>)
    requires WalkInv(read, oids, queue, visited, yielded)
    requires queue != [] && Truthy(queue[0]) && queue[0].value !in visited
    requires read(queue[0].value).Ok?
    ensures var oid := queue[0].value;
      WalkInv(read, oids, [ParentOf(read, oid)] + queue[1..], visited + {oid}, yielded + [oid])
  {
    var oid := queue[0].value;
    var p := ParentOf(read, oid);
    var q := [p] + queue[1..];
    var v := visited + {oid};
    var ys := yielded + [oid];
    WalkExtend(read, oids, queue, visited, yielded);
    assert forall i | 0 <= i < |yielded| :: ys[i] == yielded[i];
    assert forall k | 1 <= k < |queue| :: queue[k] == q[k];
    forall k | 0 <= k < |q| && Truthy(q[k])
      ensures q[k] in oids || exists j :: 0 <= j < |ys| && ParentOf(read, ys[j]) == q[k]
    {
      if k == 0 {
        assert ParentOf(read, ys[|yielded|]) == q[0];
      } else if q[k] !in oids {
        var j :| 0 <= j < |yielded| && ParentOf(read, yielded[j]) == queue[k];
        assert ParentOf(read, ys[j]) == q[k];
      }
    }
    forall x | x in queue && Truthy(x) && x.value !in v ensures x in q {
      var k :| 0 <= k < |queue| && queue[k] == x;
      assert k != 0;
    }
    forall i | 0 <= i < |ys| && Truthy(ParentOf(read, ys[i]))
      ensures ParentOf(read, ys[i]).value in v || ParentOf(read, ys[i]) in q
    {
      if i < |yielded| {
        assert ys[i] == yielded[i];
      } else {
        assert q[0] == ParentOf(read, ys[i]);
      }
    }
  }

  /** An empty deque: every start oid and every parent was yielded. */
  lemma WalkDone(read: CommitReader, oids: seq<Option<Oid>>, visited: set<Oid>, yielded: seq<Oid>)
    requires WalkInv(read, oids, [], visited, yielded)
    ensures Closed(read, oids, yielded)
  {
  }

  // ---------------------------------------------------------------------
  // The start oids are taken in order
  // ---------------------------------------------------------------------

  /** The deque is the start oids from `k` on, after the parent of the oid
      yielded last when `front` holds; every truthy start oid before `k` was
      yielded. */
  ghost predicate StartsInv(read: CommitReader, oids: seq<Option<Oid>>, queue: seq<Option<Oid>>,
                            yielded: seq<Oid>, k: nat, front: bool) {
    && k <= |oids|
    && (front ==> yielded != [] && queue == [ParentOf(read, yielded[|yielded| - 1])] + oids[k..])
    && (!front ==> queue == oids[k..] && !Following(read, yielded, |yielded|))
    && (forall j | 0 <= j < k && Truthy(oids[j]) :: oids[j].value in yielded)
    && StartOrder(read, oids, yielded)
  }

  /** Start oids that were all yielded do not change the next start. */
  lemma {:induction false} NextStartFrom(starts: seq<Option<Oid>>, seen: seq<Oid>, k: nat)
    requires k <= |starts|
    requires forall j | 0 <= j < k && Truthy(starts[j]) :: starts[j].value in seen
    ensures NextStart(starts, seen) == NextStart(starts[k..], seen)
    decreases k
  {
    if k > 0 {
      var rest := starts[1..];
      assert forall j | 0 <= j < k - 1 :: rest[j] == starts[j + 1];
      NextStartFrom(rest, seen, k - 1);
      assert rest[k - 1..] == starts[k..];
    }
  }

  /** Popping a falsy or visited oid keeps the start order invariant. */
  lemma StartsSkip(read: CommitReader, oids: seq<Option<Oid>>, queue: seq<Option<Oid>>,
                   yielded: seq<Oid>, k: nat, front: bool)
    requires StartsInv(read, oids, queue, yielded, k, front)
    requires queue != [] && (!Truthy(queue[0]) || queue[0].value in yielded)
    ensures StartsInv(read, oids, queue[1..], yielded, if front then k else k + 1, false)
  {
    if front {
      assert yielded[..|yielded|] == yielded;
    } else {
      assert queue[0] == oids[k];
      assert queue[1..] == oids[k + 1..];
    }
  }

  /** Yielding a new oid from the front of the deque keeps the start order,
      and, when the oid was a start oid, moves past it. */
  lemma StartsNext(read: CommitReader, oids: seq<Option<Oid>>, queue: seq<Option<Oid>>,
                   yielded: seq<Oid>, k: nat, front: bool)
    requires StartsInv(read, oids, queue, yielded, k, front)
    requires queue != [] && Truthy(queue[0]) && queue[0].value !in yielded
    ensures StartOrder(read, oids, yielded + [queue[0].value])
    ensures var k' := if front then k else k + 1;
      forall j | 0 <= j < k' && Truthy(oids[j]) :: oids[j].value in yielded + [queue[0].value]
  {
    var oid := queue[0].value;
    var ys := yielded + [oid];
    OrderPrefix(read, oids, yielded, oid);
    assert ys[..|yielded|] == yielded;
    if !front {
      NextStartFrom(oids, yielded, k);
      assert oids[k..][0] == oids[k] == queue[0];
    }
  }

  /** Appending an oid leaves the start order of the oids before it as it was. */
  lemma OrderPrefix(read: CommitReader, oids: seq<Option<Oid>>, yielded: seq<Oid>, oid: Oid)
    requires StartOrder(read, oids, yielded)
    ensures var ys := yielded + [oid];
      forall i | 0 <= i < |yielded| && !Following(read, ys, i) :: NextStart(oids, ys[..i]) == Some(ys[i])
  {
    var ys := yielded + [oid];
    forall i | 0 <= i < |yielded| ensures ys[..i] == yielded[..i] && ys[i] == yielded[i] {
    }
    forall i | 0 <= i < |yielded| ensures Following(read, ys, i) == Following(read, yielded, i) {
    }
  }

  /** Yielding a new oid and pushing its parent to the front keeps the start
      order invariant. */
  lemma StartsYield(read: CommitReader, oids: seq<Option<Oid>>, queue: seq<Option<Oid>>,
                    yielded: seq<Oid>, k: nat, front: bool)
    requires StartsInv(read, oids, queue, yielded, k, front)
    requires queue != [] && Truthy(queue[0]) && queue[0].value !in yielded
    ensures var oid := queue[0].value;
      StartsInv(read, oids, [ParentOf(read, oid)] + queue[1..], yielded + [oid],
                if front then k else k + 1, true)
  {
    StartsNext(read, oids, queue, yielded, k, front);
    if !front {
      assert queue[1..] == oids[k + 1..];
    }
  }

  // ---------------------------------------------------------------------
  // The yielded oids are exactly the reachable ones
  // ---------------------------------------------------------------------

  /** `c` is a path along parent links from a start oid, through truthy oids. */
  ghost predicate Chain(read: CommitReader, starts: seq<Option<Oid>>, c: seq<Oid>) {
    && c != []
    && Some(c[0]) in starts
    && (forall k | 0 <= k < |c| :: c[k] != "")
    && (forall k | 0 <= k < |c| - 1 :: ParentOf(read, c[k]) == Some(c[k + 1]))
  }

  ghost predicate Reachable(read: CommitReader, starts: seq<Option<Oid>>, o: Oid) {
    exists c :: Chain(read, starts, c) && c[|c| - 1] == o
  }

  /** Every oid of a generated sequence ends a chain from a start oid. */
  lemma {:induction false} ChainTo(read: CommitReader, starts: seq<Option<Oid>>, ys: seq<Oid>, i: nat)
    returns (c: seq<Oid>)
    requires GeneratedFrom(read, starts, ys) && i < |ys|
    requires forall k | 0 <= k < |ys| :: ys[k] != ""
    ensures Chain(read, starts, c) && c[|c| - 1] == ys[i]
    decreases i
  {
    if Some(ys[i]) in starts {
      c := [ys[i]];
    } else {
      var j :| 0 <= j < i && ParentOf(read, ys[j]) == Some(ys[i]);
      var c' := ChainTo(read, starts, ys, j);
      c := c' + [ys[i]];
      assert forall k | 0 <= k < |c'| :: c[k] == c'[k];
    }
  }

  /** A closed sequence holds every oid along any chain. */
  lemma {:induction false} ChainInside(read: CommitReader, starts: seq<Option<Oid>>, ys: seq<Oid>, c: seq<Oid>, k: nat)
    requires Closed(read, starts, ys) && Chain(read, starts, c) && k < |c|
    ensures c[k] in ys
    decreases k
  {
    if k == 0 {
      var s :| 0 <= s < |starts| && starts[s] == Some(c[0]);
      assert Truthy(starts[s]);
    } else {
      ChainInside(read, starts, ys, c, k - 1);
      var i :| 0 <= i < |ys| && ys[i] == c[k - 1];
      assert ParentOf(read, c[k - 1]) == Some(c[k]) && c[k] != "";
      assert Truthy(ParentOf(read, ys[i]));
    }
  }

  /** A walk that finished without error yields exactly the truthy oids
      reachable from the start oids along parent links. */
  lemma WalkYieldsReachable(read: CommitReader, starts: seq<Option<Oid>>, ys: seq<Oid>)
    requires forall i | 0 <= i < |ys| :: ys[i] != ""
    requires GeneratedFrom(read, starts, ys) && Closed(read, starts, ys)
    ensures forall o :: o in ys <==> Reachable(read, starts, o)
  {
    forall o ensures o in ys <==> Reachable(read, starts, o) {
      if o in ys {
        var i :| 0 <= i < |ys| && ys[i] == o;
        var c := ChainTo(read, starts, ys, i);
      }
      if Reachable(read, starts, o) {
        var c :| Chain(read, starts, c) && c[|c| - 1] == o;
        ChainInside(read, starts, ys, c, |c| - 1);
      }
    }
  }
}
