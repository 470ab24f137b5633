/** base.py `get_tree`: a stored tree, and every tree below it, flattened into
    one dict from slash-joined path to blob oid. */
module TreeFlatten {

  import opened Wrappers
  import opened Text
  import opened Objects
  import opened OrderedMaps
  import opened TreeCodec

  /** The dict `get_tree` returns: path -> blob oid, in insertion order. */
  type FlatTree = OrderedMap<Path, Oid>

  /** A name `get_tree` accepts as one path component. */
  predicate ValidName(name: string) {
    '/' !in name && name != "." && name != ".."
  }

  /** `get_tree(oid, base_path)`. Nested trees are fetched recursively; `fuel`
      bounds the nesting depth so that a store whose trees contain themselves
      (impossible with real hashes) yields an error instead of recursing
      forever. */
  function GetTree(store: ObjectStore, oid: Oid, base: Path, fuel: nat): (r: Outcome<FlatTree>)
    ensures oid == "" ==> r == Ok(Empty())
    ensures r.Ok? ==> Valid(r.value)
    ensures r.Ok? ==> forall p | p in r.value.items :: base <= p
    decreases fuel, 0
  {
    if oid == "" then Ok(Empty())
    else if fuel == 0 then Err(TreeTooDeep(oid))
    else
      var text :- GetObject(store, oid, Some("tree"));
      FlattenLines(store, SplitLines(text), base, fuel - 1, Empty())
  }

  /** The loop body of `get_tree`, one tree line at a time, so that a line is
      checked only once the lines before it were accepted (the entries come
      from a generator). */
  function FlattenLines(store: ObjectStore, lines: seq<string>, base: Path, fuel: nat, acc: FlatTree)
    : (r: Outcome<FlatTree>)
    requires Valid(acc)
    ensures r.Ok? ==> Valid(r.value)
    ensures r.Ok? ==> forall p | p in r.value.items :: p in acc.items || base <= p
    decreases fuel, |lines| + 1
  {
    if lines == [] then Ok(acc)
    else
      var e :- ParseEntry(lines[0]);
      if !ValidName(e.name) then Err(InvalidPathComponent(e.name))
      else
        var path := base + e.name;
        if e.kind == "blob" then
          FlattenLines(store, lines[1..], base, fuel, Put(acc, path, e.oid))
        else if e.kind == "tree" then
          var sub :- GetTree(store, e.oid, path + "/", fuel);
          assert forall p | p in sub.items :: base <= p by {
            forall p | p in sub.items ensures base <= p {
              assert path + "/" <= p;
              assert base <= path + "/";
            }
          }
          FlattenLines(store, lines[1..], base, fuel, Update(acc, sub))
        else Err(UnknownEntryType(e.kind, e.name))
  }

  // ---------------------------------------------------------------------
  // What each entry contributes
  // ---------------------------------------------------------------------

  /** The flattened subtree an entry of kind "tree" stands for. */
  function SubTree(store: ObjectStore, e: Entry, base: Path, fuel: nat): Outcome<FlatTree>
  {
    GetTree(store, e.oid, base + e.name + "/", fuel)
  }

  /** `p` is a key the entry `e` puts into the result under `base`: its own
      path for a blob, each path of its flattened subtree for a tree. */
  ghost predicate Contributes(store: ObjectStore, e: Entry, base: Path, fuel: nat, p: Path) {
    || (e.kind == "blob" && p == base + e.name)
    || (e.kind == "tree" && SubTree(store, e, base, fuel).Ok? && p in SubTree(store, e, base, fuel).value.items)
  }

  /** The value the entry `e` puts at `p`. */
  ghost function Contributed(store: ObjectStore, e: Entry, base: Path, fuel: nat, p: Path): Oid
    requires Contributes(store, e, base, fuel, p)
  {
    if e.kind == "blob" then e.oid else SubTree(store, e, base, fuel).value.items[p]
  }

  ghost predicate ContributedBy(store: ObjectStore, es: seq<Entry>, base: Path, fuel: nat, p: Path) {
    exists i :: 0 <= i < |es| && Contributes(store, es[i], base, fuel, p)
  }

  /** An entry `get_tree` gets past: a valid name, and a blob or a tree whose
      own flattening succeeds. */
  ghost predicate Accepted(store: ObjectStore, e: Entry, base: Path, fuel: nat) {
    && ValidName(e.name)
    && (e.kind == "blob" || (e.kind == "tree" && SubTree(store, e, base, fuel).Ok?))
  }

  ghost predicate DistinctNames(es: seq<Entry>) {
    forall i, j :: 0 <= i < j < |es| ==> es[i].name != es[j].name
  }

  /** The first path component of `p` after the prefix `base`. */
  function TopName(base: Path, p: Path): string
    requires |base| <= |p|
  {
    var rest := p[|base|..];
    rest[..Find(rest, '/')]
  }

  /** Every key an entry contributes starts, after `base`, with the entry's
      own name, so entries with different names never contribute the same
      key. */
  lemma ContributionName(store: ObjectStore, e: Entry, base: Path, fuel: nat, p: Path)
    requires ValidName(e.name) && Contributes(store, e, base, fuel, p)
    ensures |base| <= |p| && TopName(base, p) == e.name
  {
    var n := e.name;
    if e.kind == "blob" && p == base + n {
      assert p[|base|..] == n;
      assert n[..|n|] == n;
    } else {
      var sub := SubTree(store, e, base, fuel);
      assert base + n + "/" <= p;
      var x := p[|base| + |n| + 1..];
      assert p[|base|..] == n + ['/'] + x;
      FindAfterPrefix(n, '/', x);
      assert (n + ['/'] + x)[..|n|] == n;
    }
  }

  /** The dict after `get_tree` has handled the accepted entry `e`. */
  ghost function Absorb(store: ObjectStore, acc: FlatTree, e: Entry, base: Path, fuel: nat): (r: FlatTree)
    requires Valid(acc) && Accepted(store, e, base, fuel)
    ensures Valid(r)
    ensures forall p :: p in r.items <==> p in acc.items || Contributes(store, e, base, fuel, p)
    ensures forall p | p in acc.items && !Contributes(store, e, base, fuel, p) :: r.items[p] == acc.items[p]
    ensures forall p | Contributes(store, e, base, fuel, p) :: r.items[p] == Contributed(store, e, base, fuel, p)
  {
    if e.kind == "blob" then Put(acc, base + e.name, e.oid)
    else Update(acc, SubTree(store, e, base, fuel).value)
  }

  // ---------------------------------------------------------------------
  // The shape of the result
  // ---------------------------------------------------------------------

  /** One step of `FlattenLines` that succeeds overall: the first line parses
      to an accepted entry, and the rest is flattened from the absorbed dict. */
  lemma FlattenStep(store: ObjectStore, lines: seq<string>, base: Path, fuel: nat, acc: FlatTree)
    requires Valid(acc) && lines != []
    requires FlattenLines(store, lines, base, fuel, acc).Ok?
    ensures ParseEntry(lines[0]).Ok?
    ensures Accepted(store, ParseEntry(lines[0]).value, base, fuel)
    ensures FlattenLines(store, lines, base, fuel, acc)
         == FlattenLines(store, lines[1..], base, fuel, Absorb(store, acc, ParseEntry(lines[0]).value, base, fuel))
  {
  }

  lemma ParseLinesStep(lines: seq<string>)
    requires lines != [] && ParseLines(lines).Ok?
    ensures ParseEntry(lines[0]).Ok? && ParseLines(lines[1..]).Ok?
    ensures ParseLines(lines).value == [ParseEntry(lines[0]).value] + ParseLines(lines[1..]).value
  {
  }

  lemma ContributedByCons(store: ObjectStore, e: Entry, es: seq<Entry>, base: Path, fuel: nat, p: Path)
    ensures ContributedBy(store, [e] + es, base, fuel, p)
       <==> Contributes(store, e, base, fuel, p) || ContributedBy(store, es, base, fuel, p)
  {
    var all := [e] + es;
    if ContributedBy(store, es, base, fuel, p) {
      var i :| 0 <= i < |es| && Contributes(store, es[i], base, fuel, p);
      assert all[i + 1] == es[i];
    }
    if ContributedBy(store, all, base, fuel, p) {
      var i :| 0 <= i < |all| && Contributes(store, all[i], base, fuel, p);
      if i > 0 {
        assert es[i - 1] == all[i];
      }
    }
    if Contributes(store, e, base, fuel, p) {
      assert all[0] == e;
    }
  }

  lemma {:induction false} FlattenShape(store: ObjectStore, lines: seq<string>, base: Path, fuel: nat,
                                       acc: FlatTree, d: FlatTree)
    requires Valid(acc)
    requires FlattenLines(store, lines, base, fuel, acc) == Ok(d)
    ensures ParseLines(lines).Ok?
    ensures forall i | 0 <= i < |ParseLines(lines).value| :: Accepted(store, ParseLines(lines).value[i], base, fuel)
    ensures forall p :: p in d.items <==> p in acc.items || ContributedBy(store, ParseLines(lines).value, base, fuel, p)
    ensures forall p | p in acc.items && !ContributedBy(store, ParseLines(lines).value, base, fuel, p) ::
      d.items[p] == acc.items[p]
    decreases |lines|
  {
    if lines == [] {
      assert ParseLines(lines) == Ok([]);
    } else {
      FlattenStep(store, lines, base, fuel, acc);
      var e := ParseEntry(lines[0]).value;
      var acc' := Absorb(store, acc, e, base, fuel);
      FlattenShape(store, lines[1..], base, fuel, acc', d);
      ParseLinesStep(lines);
      var es' := ParseLines(lines[1..]).value;
      var es := ParseLines(lines).value;
      assert es == [e] + es';
      forall p
        ensures ContributedBy(store, es, base, fuel, p) <==> Contributes(store, e, base, fuel, p) || ContributedBy(store, es', base, fuel, p)
      {
        ContributedByCons(store, e, es', base, fuel, p);
      }
      forall i | 0 <= i < |es| ensures Accepted(store, es[i], base, fuel) {
        if i > 0 {
          assert es[i] == es'[i - 1];
        }
      }
    }
  }

  /** Every key an entry of `es` contributes is in `d`, with the value the
      entry puts there. */
  ghost predicate ValuesFrom(store: ObjectStore, es: seq<Entry>, base: Path, fuel: nat, d: FlatTree) {
    forall i, p | 0 <= i < |es| && Contributes(store, es[i], base, fuel, p) ::
      p in d.items && d.items[p] == Contributed(store, es[i], base, fuel, p)
  }

  lemma {:induction false} FlattenValues(store: ObjectStore, lines: seq<string>, base: Path, fuel: nat,
                                        acc: FlatTree, d: FlatTree)
    requires Valid(acc)
    requires FlattenLines(store, lines, base, fuel, acc) == Ok(d)
    requires ParseLines(lines).Ok? && DistinctNames(ParseLines(lines).value)
    ensures ValuesFrom(store, ParseLines(lines).value, base, fuel, d)
    decreases |lines|
  {
    if lines != [] {
      FlattenStep(store, lines, base, fuel, acc);
      ParseLinesStep(lines);
      var e := ParseEntry(lines[0]).value;
      var acc' := Absorb(store, acc, e, base, fuel);
      var es' := ParseLines(lines[1..]).value;
      DistinctNamesTail(e, es');
      FlattenShape(store, lines[1..], base, fuel, acc', d);
      FlattenValues(store, lines[1..], base, fuel, acc', d);
      ValuesStep(store, e, es', base, fuel, acc, d);
    }
  }

  lemma DistinctNamesTail(e: Entry, es': seq<Entry>)
    requires DistinctNames([e] + es')
    ensures DistinctNames(es')
    ensures forall j | 0 <= j < |es'| :: es'[j].name != e.name
  {
    var es := [e] + es';
    forall i, j | 0 <= i < j < |es'| ensures es'[i].name != es'[j].name {
      assert es'[i] == es[i + 1] && es'[j] == es[j + 1];
    }
    forall j | 0 <= j < |es'| ensures es'[j].name != e.name {
      assert es[0] == e && es'[j] == es[j + 1];
    }
  }

  /** The values the first entry puts survive the later entries, which by
      their distinct names never touch its keys. */
  lemma ValuesStep(store: ObjectStore, e: Entry, es': seq<Entry>, base: Path, fuel: nat,
                   acc: FlatTree, d: FlatTree)
    requires Valid(acc) && Accepted(store, e, base, fuel)
    requires forall j | 0 <= j < |es'| :: es'[j].name != e.name && Accepted(store, es'[j], base, fuel)
    requires var acc' := Absorb(store, acc, e, base, fuel);
      forall p :: p in d.items <==> p in acc'.items || ContributedBy(store, es', base, fuel, p)
    requires var acc' := Absorb(store, acc, e, base, fuel);
      forall p | p in acc'.items && !ContributedBy(store, es', base, fuel, p) :: d.items[p] == acc'.items[p]
    requires ValuesFrom(store, es', base, fuel, d)
    ensures ValuesFrom(store, [e] + es', base, fuel, d)
  {
    var es := [e] + es';
    var acc' := Absorb(store, acc, e, base, fuel);
    forall i, p | 0 <= i < |es| && Contributes(store, es[i], base, fuel, p)
      ensures p in d.items && d.items[p] == Contributed(store, es[i], base, fuel, p)
    {
      if i == 0 {
        FirstContributionKept(store, e, es', base, fuel, p);
        assert p in acc'.items;
      } else {
        assert es[i] == es'[i - 1];
      }
    }
  }

  /** With distinct names, a key the first entry contributes is contributed
      by no later entry. */
  lemma FirstContributionKept(store: ObjectStore, e: Entry, es': seq<Entry>, base: Path, fuel: nat, p: Path)
    requires ValidName(e.name) && Contributes(store, e, base, fuel, p)
    requires forall j | 0 <= j < |es'| :: es'[j].name != e.name && ValidName(es'[j].name)
    ensures !ContributedBy(store, es', base, fuel, p)
  {
    ContributionName(store, e, base, fuel, p);
    forall j | 0 <= j < |es'| ensures !Contributes(store, es'[j], base, fuel, p) {
      if Contributes(store, es'[j], base, fuel, p) {
        ContributionName(store, es'[j], base, fuel, p);
      }
    }
  }

  /** The result of `get_tree` on a non-empty oid with nesting budget
      `fuel + 1`: the stored object is a tree whose every entry has a valid
      name and is a blob or a tree, and the keys are exactly each blob's
      `base + name` and each subtree's own keys (which carry the prefix
      `base + name + "/"`). */
  lemma {:induction false} GetTreeShape(store: ObjectStore, oid: Oid, base: Path, fuel: nat, d: FlatTree)
    requires oid != ""
    requires GetTree(store, oid, base, fuel + 1) == Ok(d)
    ensures IterTreeEntries(store, oid).Ok?
    ensures var es := IterTreeEntries(store, oid).value;
      forall i | 0 <= i < |es| :: Accepted(store, es[i], base, fuel)
    ensures var es := IterTreeEntries(store, oid).value;
      forall p :: p in d.items <==> ContributedBy(store, es, base, fuel, p)
  {
    var lines := GetTreeUnfold(store, oid, base, fuel);
    FlattenShape(store, lines, base, fuel, Empty(), d);
  }

  /** Conversely, `FlattenLines` gets through lines that all parse to entries
      it accepts. */
  lemma {:induction false} FlattenAccepts(store: ObjectStore, lines: seq<string>, base: Path, fuel: nat, acc: FlatTree)
    requires Valid(acc) && ParseLines(lines).Ok?
    requires forall i | 0 <= i < |ParseLines(lines).value| :: Accepted(store, ParseLines(lines).value[i], base, fuel)
    ensures FlattenLines(store, lines, base, fuel, acc).Ok?
    decreases |lines|
  {
    if lines != [] {
      ParseLinesStep(lines);
      var es := ParseLines(lines).value;
      var e := es[0];
      forall i | 0 <= i < |ParseLines(lines[1..]).value|
        ensures Accepted(store, ParseLines(lines[1..]).value[i], base, fuel)
      {
        assert ParseLines(lines[1..]).value[i] == es[i + 1];
      }
      var acc' := Absorb(store, acc, e, base, fuel);
      FlattenAccepts(store, lines[1..], base, fuel, acc');
      assert FlattenLines(store, lines, base, fuel, acc) == FlattenLines(store, lines[1..], base, fuel, acc');
    }
  }

  /** `get_tree` of a non-empty oid succeeds exactly when the oid names a
      stored tree whose lines all parse and whose every entry is accepted:
      a valid name, and a blob or a tree that flattens in its turn. */
  lemma GetTreeSucceeds(store: ObjectStore, oid: Oid, base: Path, fuel: nat)
    requires oid != ""
    ensures GetTree(store, oid, base, fuel + 1).Ok?
        <==> && IterTreeEntries(store, oid).Ok?
             && forall i | 0 <= i < |IterTreeEntries(store, oid).value| ::
                  Accepted(store, IterTreeEntries(store, oid).value[i], base, fuel)
  {
    if GetTree(store, oid, base, fuel + 1).Ok? {
      GetTreeShape(store, oid, base, fuel, GetTree(store, oid, base, fuel + 1).value);
    }
    var es := IterTreeEntries(store, oid);
    if es.Ok? && forall i | 0 <= i < |es.value| :: Accepted(store, es.value[i], base, fuel) {
      var lines := SplitLines(store[oid].payload);
      FlattenAccepts(store, lines, base, fuel, Empty());
    }
  }

  /** When the entries of the tree have distinct names (as a directory's
      children do), every key an entry contributes holds the value that entry
      puts there: later entries never overwrite it. */
  lemma {:induction false} GetTreeValues(store: ObjectStore, oid: Oid, base: Path, fuel: nat, d: FlatTree)
    requires oid != ""
    requires GetTree(store, oid, base, fuel + 1) == Ok(d)
    requires IterTreeEntries(store, oid).Ok? && DistinctNames(IterTreeEntries(store, oid).value)
    ensures ValuesFrom(store, IterTreeEntries(store, oid).value, base, fuel, d)
  {
    var lines := GetTreeUnfold(store, oid, base, fuel);
    FlattenValues(store, lines, base, fuel, Empty(), d);
  }

  /** What `ValuesFrom` says entry by entry: a blob's key maps to the blob's
      oid, and every key of a subtree keeps the subtree's value. */
  lemma EntryValues(store: ObjectStore, es: seq<Entry>, base: Path, fuel: nat, d: FlatTree, i: nat)
    requires ValuesFrom(store, es, base, fuel, d) && i < |es|
    ensures es[i].kind == "blob" ==>
      base + es[i].name in d.items && d.items[base + es[i].name] == es[i].oid
    ensures es[i].kind == "tree" && SubTree(store, es[i], base, fuel).Ok? ==>
      forall p | p in SubTree(store, es[i], base, fuel).value.items ::
        p in d.items && d.items[p] == SubTree(store, es[i], base, fuel).value.items[p]
  {
    if es[i].kind == "blob" {
      assert Contributes(store, es[i], base, fuel, base + es[i].name);
    }
  }

  /** A successful `get_tree` of a non-empty oid flattens the lines of the
      tree object stored there, with one level less of budget. */
  lemma GetTreeUnfold(store: ObjectStore, oid: Oid, base: Path, fuel: nat) returns (lines: seq<string>)
    requires oid != "" && GetTree(store, oid, base, fuel + 1).Ok?
    ensures oid in store && store[oid].kind == "tree"
    ensures lines == SplitLines(store[oid].payload)
    ensures GetTree(store, oid, base, fuel + 1) == FlattenLines(store, lines, base, fuel, Empty())
    ensures IterTreeEntries(store, oid) == ParseLines(lines)
  {
    lines := SplitLines(store[oid].payload);
  }

  /** `get_tree` fails when any entry of the tree has a name holding "/" or
      equal to "." or "..", or a type other than "blob" and "tree". */
  lemma GetTreeRejects(store: ObjectStore, oid: Oid, base: Path, fuel: nat, i: nat)
    requires IterTreeEntries(store, oid).Ok? && i < |IterTreeEntries(store, oid).value|
    requires var e := IterTreeEntries(store, oid).value[i];
      !ValidName(e.name) || (e.kind != "blob" && e.kind != "tree")
    ensures GetTree(store, oid, base, fuel).Err?
  {
    if fuel > 0 && GetTree(store, oid, base, fuel).Ok? {
      GetTreeShape(store, oid, base, fuel - 1, GetTree(store, oid, base, fuel).value);
    }
  }

  // ---------------------------------------------------------------------
  // More fuel changes nothing once the fuel suffices
  // ---------------------------------------------------------------------

  /** A result `get_tree` reached within `fuel` levels is the same with one
      level more. */
  lemma {:induction false} GetTreeMore(store: ObjectStore, oid: Oid, base: Path, fuel: nat)
    requires GetTree(store, oid, base, fuel).Ok?
    ensures GetTree(store, oid, base, fuel + 1) == GetTree(store, oid, base, fuel)
    decreases fuel, 0
  {
    if oid != "" {
      assert fuel != 0;
      var f: nat := fuel - 1;
      var lines := GetTreeUnfold(store, oid, base, f);
      FlattenMore(store, lines, base, f, Empty());
      GetTreeMoreStep(store, oid, base, f);
    }
  }

  lemma GetTreeMoreStep(store: ObjectStore, oid: Oid, base: Path, fuel: nat)
    requires oid != "" && oid in store && store[oid].kind == "tree"
    requires var lines := SplitLines(store[oid].payload);
      FlattenLines(store, lines, base, fuel + 1, Empty()) == FlattenLines(store, lines, base, fuel, Empty())
    ensures GetTree(store, oid, base, fuel + 2) == GetTree(store, oid, base, fuel + 1)
  {
    GetTreeStep(store, oid, base, fuel);
    GetTreeStep(store, oid, base, fuel + 1);
  }

  /** A stored tree flattens its own lines with one level less. */
  lemma GetTreeStep(store: ObjectStore, oid: Oid, base: Path, fuel: nat)
    requires oid != "" && oid in store && store[oid].kind == "tree"
    ensures GetTree(store, oid, base, fuel + 1)
         == FlattenLines(store, SplitLines(store[oid].payload), base, fuel, Empty())
  {
  }

  lemma {:induction false} FlattenMore(store: ObjectStore, lines: seq<string>, base: Path, fuel: nat, acc: FlatTree)
    requires Valid(acc) && FlattenLines(store, lines, base, fuel, acc).Ok?
    ensures FlattenLines(store, lines, base, fuel + 1, acc) == FlattenLines(store, lines, base, fuel, acc)
    decreases fuel, |lines| + 1
  {
    if lines != [] {
      var e := ParseEntry(lines[0]).value;
      var path := base + e.name;
      if e.kind == "blob" {
        FlattenMore(store, lines[1..], base, fuel, Put(acc, path, e.oid));
      } else {
        var sub := GetTree(store, e.oid, path + "/", fuel).value;
        GetTreeMore(store, e.oid, path + "/", fuel);
        FlattenMore(store, lines[1..], base, fuel, Update(acc, sub));
      }
    }
  }

  /** Once some fuel suffices, every larger fuel gives the same result: the
      bound only cuts off trees deeper than it. */
  lemma {:induction false} GetTreeMonotone(store: ObjectStore, oid: Oid, base: Path, fuel: nat, more: nat)
    requires fuel <= more && GetTree(store, oid, base, fuel).Ok?
    ensures GetTree(store, oid, base, more) == GetTree(store, oid, base, fuel)
    decreases more - fuel
  {
    if fuel < more {
      GetTreeMore(store, oid, base, fuel);
      GetTreeMonotone(store, oid, base, fuel + 1, more);
    }
  }

  // ---------------------------------------------------------------------
  // A name holding "\r" adds a file
  // ---------------------------------------------------------------------

  /** Flattening the lines of two accepted blob entries puts both blobs. */
  lemma FlattenTwoFiles(store: ObjectStore, l1: string, l2: string, e1: Entry, e2: Entry, base: Path)
    requires ParseEntry(l1) == Ok(e1) && ValidName(e1.name) && e1.kind == "blob"
    requires ParseEntry(l2) == Ok(e2) && ValidName(e2.name) && e2.kind == "blob"
    ensures FlattenLines(store, [l1, l2], base, 0, Empty())
         == Ok(Put(Put(Empty(), base + e1.name, e1.oid), base + e2.name, e2.oid))
  {
    var acc := Put(Empty(), base + e1.name, e1.oid);
    FlattenBlob(store, [l1, l2], e1, base, Empty());
    assert [l1, l2][1..] == [l2];
    FlattenBlob(store, [l2], e2, base, acc);
    assert [l2][1..] == [];
  }

  /** A line holding an accepted blob entry puts the blob, then the rest
      of the lines are flattened. */
  lemma FlattenBlob(store: ObjectStore, lines: seq<string>, e: Entry, base: Path, acc: FlatTree)
    requires Valid(acc) && lines != []
    requires ParseEntry(lines[0]) == Ok(e) && ValidName(e.name) && e.kind == "blob"
    ensures FlattenLines(store, lines, base, 0, acc)
         == FlattenLines(store, lines[1..], base, 0, Put(acc, base + e.name, e.oid))
  {
  }

  /** As written, a directory holding the one file `a + "\r" + line`, where
      `line` describes a blob, flattens to two files: `a` and the blob that
      `line` names, which the directory never held. */
  lemma InjectedFile(store: ObjectStore, t: Oid, e: Entry, a: string, hidden: Entry, base: Path)
    requires t != "" && t in store && store[t] == Object("tree", WriteTree([e]))
    requires e.kind == "blob" && ' ' !in e.oid && NoLineBreak(e.oid)
    requires NoLineBreak(a) && ValidName(a)
    requires hidden.kind == "blob" && Writable(hidden) && ValidName(hidden.name)
    requires e.name == a + "\r" + EntryLine(hidden)
    ensures GetTree(store, t, base, 1)
         == Ok(Put(Put(Empty(), base + a, e.oid), base + hidden.name, hidden.oid))
  {
    var first := Entry(a, e.oid, "blob");
    assert NoLineBreak("blob") && ' ' !in "blob";
    InjectedLines(e, a, hidden);
    ParseEntryLine(first);
    ParseEntryLine(hidden);
    GetTreeStep(store, t, base, 0);
    FlattenTwoFiles(store, EntryLine(first), EntryLine(hidden), first, hidden, base);
  }
}
