/** diff.py: lining up the path-to-oid maps of several flattened trees, and
    the text report of which paths changed between two of them. */
module Diff {

  import opened Wrappers
  import opened Sequences
  import opened Objects
  import opened OrderedMaps
  import opened TreeFlatten

  /** One tuple `compare_trees` yields: a path, and for each tree its oid
      at that path or `None`. */
  datatype Row = Row(path: Path, oids: seq<Option<Oid>>)

  // ---------------------------------------------------------------------
  // Reference definitions
  // ---------------------------------------------------------------------

  /** `acc` followed by the keys of `ks` not yet listed, in order. */
  function AddKeys(acc: seq<Path>, ks: seq<Path>): (r: seq<Path>)
    ensures acc <= r
    ensures forall p :: p in r <==> p in acc || p in ks
    ensures Distinct(acc) ==> Distinct(r)
    decreases |ks|
  {
    if ks == [] then acc
    else
      var a := AddKeys(acc, ks[..|ks| - 1]);
      var k := ks[|ks| - 1];
      assert forall p :: p in ks <==> p in ks[..|ks| - 1] || p == k;
      if k in a then a else a + [k]
  }

  /** Every path of `trees`, each listed once, in the order a Python dict
      first sees them: the keys of the first tree in its order, then the
      new keys of the second, and so on. */
  function FirstSeen(trees: seq<FlatTree>): (r: seq<Path>)
    ensures Distinct(r)
    ensures forall p :: p in r <==> exists j | 0 <= j < |trees| :: p in trees[j].keys
    decreases |trees|
  {
    if trees == [] then []
    else
      var init := trees[..|trees| - 1];
      assert forall j | 0 <= j < |init| :: init[j] == trees[j];
      AddKeys(FirstSeen(init), trees[|trees| - 1].keys)
  }

  /** The oid of `p` in each tree, `None` where the tree lacks it. */
  function Column(trees: seq<FlatTree>, p: Path): (r: seq<Option<Oid>>)
    ensures |r| == |trees|
  {
    seq(|trees|, j requires 0 <= j < |trees| => Get(trees[j], p))
  }

  /** Distinct keys, listed from nothing, keep their order. */
  lemma {:induction false} AddFreshKeys(ks: seq<Path>)
    requires Distinct(ks)
    ensures AddKeys([], ks) == ks
    decreases |ks|
  {
    if ks != [] {
      var init, k := ks[..|ks| - 1], ks[|ks| - 1];
      AddFreshKeys(init);
      assert k !in init by {
        assert forall j | 0 <= j < |init| :: init[j] == ks[j];
      }
    }
  }

  /** The paths of the trees before `k` come first, in their own order. */
  lemma {:induction false} FirstSeenPrefix(trees: seq<FlatTree>, k: nat)
    requires k <= |trees|
    ensures FirstSeen(trees[..k]) <= FirstSeen(trees)
    decreases |trees|
  {
    if k < |trees| {
      var init := trees[..|trees| - 1];
      assert init[..k] == trees[..k];
      FirstSeenPrefix(init, k);
    } else {
      assert trees[..k] == trees;
    }
  }

  /** The first tree's keys lead, in the first tree's order. */
  lemma FirstTreeFirst(trees: seq<FlatTree>)
    requires |trees| > 0 && Valid(trees[0])
    ensures trees[0].keys <= FirstSeen(trees)
  {
    var one := trees[..1];
    FirstSeenPrefix(trees, 1);
    assert one[..0] == [] && one[0] == trees[0];
    assert FirstSeen(one) == AddKeys([], trees[0].keys);
    AddFreshKeys(trees[0].keys);
  }

  // ---------------------------------------------------------------------
  // compare_trees
  // ---------------------------------------------------------------------

  /** Entry `j` of the row for `p` once the trees before `i`, and the keys
      `cur` of tree `i`, have been recorded. */
  function Cell(trees: seq<FlatTree>, p: Path, i: nat, cur: seq<Path>, j: nat): Option<Oid>
    requires j < |trees|
  {
    if j < i || (j == i && p in cur) then Get(trees[j], p) else None
  }

  ghost predicate RowFilled(row: seq<Option<Oid>>, trees: seq<FlatTree>, p: Path, i: nat, cur: seq<Path>) {
    |row| == |trees| && forall j | 0 <= j < |trees| :: row[j] == Cell(trees, p, i, cur, j)
  }

  /** The `entries` dict after the first `i` trees. */
  ghost predicate Done(trees: seq<FlatTree>, i: nat, e: OrderedMap<Path, seq<Option<Oid>>>)
    requires i <= |trees|
  {
    && Valid(e)
    && e.keys == FirstSeen(trees[..i])
    && forall p | p in e.items :: RowFilled(e.items[p], trees, p, i, [])
  }

  /** The `entries` dict after the first `i` trees and the keys `cur` of
      tree `i`. */
  ghost predicate Partial(trees: seq<FlatTree>, i: nat, cur: seq<Path>, e: OrderedMap<Path, seq<Option<Oid>>>)
    requires i < |trees|
  {
    && Valid(e)
    && e.keys == AddKeys(FirstSeen(trees[..i]), cur)
    && forall p | p in e.items :: RowFilled(e.items[p], trees, p, i, cur)
  }

  function Nones(n: nat): (r: seq<Option<Oid>>)
    ensures |r| == n && forall j | 0 <= j < n :: r[j].None?
  {
    seq(n, _ => None)
  }

  lemma StartTree(trees: seq<FlatTree>, i: nat, e: OrderedMap<Path, seq<Option<Oid>>>)
    requires i < |trees| && Done(trees, i, e)
    ensures Partial(trees, i, trees[i].keys[..0], e)
  {
    assert trees[i].keys[..0] == [];
  }

  lemma FinishTree(trees: seq<FlatTree>, i: nat, e: OrderedMap<Path, seq<Option<Oid>>>)
    requires i < |trees| && Valid(trees[i])
    requires Partial(trees, i, trees[i].keys, e)
    ensures Done(trees, i + 1, e)
  {
    var ks := trees[i].keys;
    assert trees[..i + 1][..i] == trees[..i];
    forall p | p in e.items
      ensures RowFilled(e.items[p], trees, p, i + 1, [])
    {
      assert p !in ks ==> Get(trees[i], p) == None;
    }
  }

  /** Before tree `i`'s key `p` is recorded, its row either exists or every
      earlier tree lacks `p`. */
  lemma UnseenKey(trees: seq<FlatTree>, i: nat, cur: seq<Path>, p: Path, e: OrderedMap<Path, seq<Option<Oid>>>)
    requires forall j | 0 <= j < |trees| :: Valid(trees[j])
    requires i < |trees| && Partial(trees, i, cur, e) && p !in e.items && p !in cur
    ensures RowFilled(Nones(|trees|), trees, p, i, cur)
  {
    forall j | 0 <= j < i
      ensures Get(trees[j], p) == None
    {
      assert trees[..i][j] == trees[j];
    }
  }

  /** Recording `p` lists it if it was not listed yet. */
  lemma RecordKeys(trees: seq<FlatTree>, i: nat, cur: seq<Path>, p: Path,
                   e: OrderedMap<Path, seq<Option<Oid>>>)
    requires i < |trees| && Partial(trees, i, cur, e)
    ensures AddKeys(FirstSeen(trees[..i]), cur + [p]) == if p in e.items then e.keys else e.keys + [p]
  {
    assert (cur + [p])[..|cur|] == cur;
  }

  /** Recording `p` fills in tree `i`'s entry of its row. */
  lemma RecordRow(trees: seq<FlatTree>, i: nat, cur: seq<Path>, p: Path, row: seq<Option<Oid>>)
    requires i < |trees| && p in trees[i].items && RowFilled(row, trees, p, i, cur)
    ensures RowFilled(row[i := Some(trees[i].items[p])], trees, p, i, cur + [p])
  {
    assert p in cur + [p];
  }

  /** Recording `p` leaves every other row as it was. */
  lemma OtherRow(trees: seq<FlatTree>, i: nat, cur: seq<Path>, p: Path, q: Path, row: seq<Option<Oid>>)
    requires q != p && RowFilled(row, trees, q, i, cur)
    ensures RowFilled(row, trees, q, i, cur + [p])
  {
    assert q in cur + [p] <==> q in cur;
  }

  /** `entries[path][i] = oid` for the key `p` of tree `i`. */
  lemma RecordStep(trees: seq<FlatTree>, i: nat, cur: seq<Path>, p: Path,
                   e: OrderedMap<Path, seq<Option<Oid>>>, row: seq<Option<Oid>>)
    requires forall j | 0 <= j < |trees| :: Valid(trees[j])
    requires i < |trees| && Partial(trees, i, cur, e)
    requires p in trees[i].items && p !in cur
    requires RowFilled(row, trees, p, i, cur)
    requires p in e.items ==> row == e.items[p]
    ensures Partial(trees, i, cur + [p], Put(e, p, row[i := Some(trees[i].items[p])]))
  {
    var e' := Put(e, p, row[i := Some(trees[i].items[p])]);
    RecordKeys(trees, i, cur, p, e);
    forall q | q in e'.items
      ensures RowFilled(e'.items[q], trees, q, i, cur + [p])
    {
      if q == p {
        RecordRow(trees, i, cur, p, row);
      } else {
        OtherRow(trees, i, cur, p, q, e.items[q]);
      }
    }
  }

  /** The key after `t.keys[..m]` is not among them. */
  lemma NextKey(t: FlatTree, m: nat)
    requires Valid(t) && m < |t.keys|
    ensures t.keys[..m + 1] == t.keys[..m] + [t.keys[m]]
    ensures t.keys[m] !in t.keys[..m] && t.keys[m] in t.items
  {
    assert forall k | 0 <= k < m :: t.keys[..m][k] == t.keys[k];
  }

  /** Every row of the finished dict is its path's column. */
  lemma AllDone(trees: seq<FlatTree>, e: OrderedMap<Path, seq<Option<Oid>>>)
    requires Done(trees, |trees|, e)
    ensures e.keys == FirstSeen(trees)
    ensures forall p | p in e.items :: e.items[p] == Column(trees, p)
  {
    assert trees[..|trees|] == trees;
    forall p | p in e.items
      ensures e.items[p] == Column(trees, p)
    {
      var row, col := e.items[p], Column(trees, p);
      assert RowFilled(row, trees, p, |trees|, []);
      assert |row| == |col|;
      forall j | 0 <= j < |trees| ensures row[j] == col[j] {
        assert row[j] == Cell(trees, p, |trees|, [], j);
      }
    }
  }

  /** `entries[path][i] = oid` for the `m`-th key of tree `i`. */
  function RecordKey(trees: seq<FlatTree>, i: nat, m: nat, e: OrderedMap<Path, seq<Option<Oid>>>)
    : (r: OrderedMap<Path, seq<Option<Oid>>>)
    requires forall j | 0 <= j < |trees| :: Valid(trees[j])
    requires i < |trees| && m < |trees[i].keys| && Partial(trees, i, trees[i].keys[..m], e)
    ensures Partial(trees, i, trees[i].keys[..m + 1], r)
  {
    var t := trees[i];
    var p := t.keys[m];
    NextKey(t, m);
    if p in e.items then
      RecordStep(trees, i, t.keys[..m], p, e, e.items[p]);
      Put(e, p, e.items[p][i := Some(t.items[p])])
    else
      UnseenKey(trees, i, t.keys[..m], p, e);
      RecordStep(trees, i, t.keys[..m], p, e, Nones(|trees|));
      Put(e, p, Nones(|trees|)[i := Some(t.items[p])])
  }

  /** The inner loop of `compare_trees`: records every key of tree `i`. */
  method RecordTree(trees: seq<FlatTree>, i: nat, entries: OrderedMap<Path, seq<Option<Oid>>>)
    returns (next: OrderedMap<Path, seq<Option<Oid>>>)
    requires forall j | 0 <= j < |trees| :: Valid(trees[j])
    requires i < |trees| && Done(trees, i, entries)
    ensures Done(trees, i + 1, next)
  {
    var t := trees[i];
    StartTree(trees, i, entries);
    next := entries;
    var m := 0;
    while m < |t.keys|
      invariant m <= |t.keys| && Partial(trees, i, t.keys[..m], next)
    {
      next, m := RecordKey(trees, i, m, next), m + 1;
    }
    assert t.keys[..m] == t.keys;
    FinishTree(trees, i, next);
  }

  /** `compare_trees(*trees)`: one row per path of any tree, in first-seen
      order, holding that path's oid in each tree. */
  method CompareTrees(trees: seq<FlatTree>) returns (rows: seq<Row>)
    requires forall j | 0 <= j < |trees| :: Valid(trees[j])
    ensures |rows| == |FirstSeen(trees)|
    ensures forall k | 0 <= k < |rows| ::
      rows[k] == Row(FirstSeen(trees)[k], Column(trees, FirstSeen(trees)[k]))
  {
    var entries: OrderedMap<Path, seq<Option<Oid>>> := Empty();
    var i := 0;
    while i < |trees|
      invariant i <= |trees| && Done(trees, i, entries)
    {
      entries := RecordTree(trees, i, entries);
      i := i + 1;
    }
    AllDone(trees, entries);
    rows := seq(|entries.keys|, k requires 0 <= k < |entries.keys| =>
      Row(entries.keys[k], entries.items[entries.keys[k]]));
  }

  // ---------------------------------------------------------------------
  // diff_trees
  // ---------------------------------------------------------------------

  /** The paths of `ps` whose oids differ between `from` and `to`. */
  function Changed(from: FlatTree, to: FlatTree, ps: seq<Path>): (r: seq<Path>)
    ensures forall p :: p in r <==> p in ps && Get(from, p) != Get(to, p)
    ensures (forall p | p in ps :: Get(from, p) == Get(to, p)) ==> r == []
    decreases |ps|
  {
    if ps == [] then []
    else
      var p := ps[|ps| - 1];
      var c := Changed(from, to, ps[..|ps| - 1]);
      assert forall q :: q in ps <==> q in ps[..|ps| - 1] || q == p;
      if Get(from, p) != Get(to, p) then c + [p] else c
  }

  /** The line `diff_trees` writes for a changed path. */
  function Line(p: Path): string {
    "changed: " + p + "\n"
  }

  /** One line per path of `ps`, in order. */
  function Report(ps: seq<Path>): (r: string)
    ensures r == "" <==> ps == []
    decreases |ps|
  {
    if ps == [] then ""
    else Report(ps[..|ps| - 1]) + Line(ps[|ps| - 1])
  }

  /** A path is reported exactly when its oid differs between the two
      trees, which includes paths only one of them has. */
  lemma {:induction false} ChangedPaths(from: FlatTree, to: FlatTree, p: Path)
    requires Valid(from) && Valid(to)
    ensures p in Changed(from, to, FirstSeen([from, to])) <==> Get(from, p) != Get(to, p)
  {
    if Get(from, p) != Get(to, p) {
      if p in from.items {
        assert [from, to][0] == from;
      } else {
        assert [from, to][1] == to;
      }
    }
  }

  /** Equal lookups everywhere make equal maps. */
  lemma SameLookups(from: FlatTree, to: FlatTree)
    requires forall p :: Get(from, p) == Get(to, p)
    ensures from.items == to.items
  {
    assert from.items.Keys == to.items.Keys by {
      forall p ensures p in from.items <==> p in to.items {
        assert Get(from, p) == Get(to, p);
      }
    }
    forall p | p in from.items ensures from.items[p] == to.items[p] {
      assert Get(from, p) == Get(to, p);
    }
  }

  lemma PairColumn(from: FlatTree, to: FlatTree, p: Path)
    ensures Column([from, to], p) == [Get(from, p), Get(to, p)]
  {
  }

  /** `diff_trees(t, t)` reports nothing, and nothing else does. */
  lemma NoChangeIff(from: FlatTree, to: FlatTree)
    requires Valid(from) && Valid(to)
    ensures Report(Changed(from, to, FirstSeen([from, to]))) == "" <==> from.items == to.items
  {
    if from.items != to.items {
      if forall p :: Get(from, p) == Get(to, p) {
        SameLookups(from, to);
      }
      var p :| Get(from, p) != Get(to, p);
      ChangedPaths(from, to, p);
    }
  }

  /** The paths of `rows` whose two oids differ, in order. */
  function ChangedRows(rows: seq<Row>): seq<Path>
    requires forall k | 0 <= k < |rows| :: |rows[k].oids| == 2
    decreases |rows|
  {
    if rows == [] then []
    else
      var row := rows[|rows| - 1];
      var c := ChangedRows(rows[..|rows| - 1]);
      if row.oids[0] != row.oids[1] then c + [row.path] else c
  }

  /** The rows `compare_trees(t_from, t_to)` yields pick out the changed
      paths of the first-seen order. */
  lemma {:induction false} RowsChanged(from: FlatTree, to: FlatTree, ps: seq<Path>, rows: seq<Row>, k: nat)
    requires |rows| == |ps| && k <= |rows|
    requires forall j | 0 <= j < |rows| :: rows[j] == Row(ps[j], Column([from, to], ps[j]))
    requires forall j | 0 <= j < |rows| :: |rows[j].oids| == 2
    ensures ChangedRows(rows[..k]) == Changed(from, to, ps[..k])
  {
    if k > 0 {
      RowsChanged(from, to, ps, rows, k - 1);
      assert rows[..k][..k - 1] == rows[..k - 1];
      assert ps[..k][..k - 1] == ps[..k - 1];
      PairColumn(from, to, ps[k - 1]);
    }
  }

  /** The report over one more row. */
  lemma ReportRowStep(rows: seq<Row>, k: nat)
    requires forall j | 0 <= j < |rows| :: |rows[j].oids| == 2
    requires k < |rows|
    ensures Report(ChangedRows(rows[..k + 1]))
         == Report(ChangedRows(rows[..k]))
            + (if rows[k].oids[0] != rows[k].oids[1] then Line(rows[k].path) else "")
  {
    assert rows[..k + 1][..k] == rows[..k];
    var c := ChangedRows(rows[..k]);
    if rows[k].oids[0] != rows[k].oids[1] {
      assert (c + [rows[k].path])[..|c|] == c;
    }
  }

  /** The loop of `diff_trees`: a "changed" line for each row whose two
      oids differ. */
  method ReportRows(rows: seq<Row>) returns (output: string)
    requires forall k | 0 <= k < |rows| :: |rows[k].oids| == 2
    ensures output == Report(ChangedRows(rows))
  {
    output := "";
    var k := 0;
    while k < |rows|
      invariant k <= |rows| && output == Report(ChangedRows(rows[..k]))
    {
      ReportRowStep(rows, k);
      if rows[k].oids[0] != rows[k].oids[1] {
        output := output + Line(rows[k].path);
      }
      k := k + 1;
    }
    assert rows[..k] == rows;
  }

  /** `diff_trees(t_from, t_to)`: a "changed" line for each path, in
      first-seen order, whose oid differs between the two trees. */
  method DiffTrees(from: FlatTree, to: FlatTree) returns (output: string)
    requires Valid(from) && Valid(to)
    ensures output == Report(Changed(from, to, FirstSeen([from, to])))
  {
    var rows := CompareTrees([from, to]);
    ghost var ps := FirstSeen([from, to]);
    RowsChanged(from, to, ps, rows, |rows|);
    assert rows[..|rows|] == rows && ps[..|ps|] == ps;
    output := ReportRows(rows);
  }
}
