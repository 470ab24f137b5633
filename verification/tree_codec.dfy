/** The tree record format: one line "type oid name" per child, sorted, and
    its parser (base.py `write_tree`'s last step and `_iter_tree_entries`). */
module TreeCodec {

  import opened Wrappers
  import opened Text
  import opened Objects

  /** One child of a directory, in the field order `write_tree` collects:
      (name, oid, type). */
  datatype Entry = Entry(name: string, oid: Oid, kind: string)

  // ---------------------------------------------------------------------
  // Ordering: Python compares (name, oid, type) tuples field by field
  // ---------------------------------------------------------------------

  predicate EntryLess(a: Entry, b: Entry) {
    || StrLess(a.name, b.name)
    || (a.name == b.name && StrLess(a.oid, b.oid))
    || (a.name == b.name && a.oid == b.oid && StrLess(a.kind, b.kind))
  }

  predicate EntryLeq(a: Entry, b: Entry) {
    a == b || EntryLess(a, b)
  }

  lemma EntryLessIrreflexive(a: Entry)
    ensures !EntryLess(a, a)
  {
    StrLessIrreflexive(a.name);
    StrLessIrreflexive(a.oid);
    StrLessIrreflexive(a.kind);
  }

  lemma EntryLessTransitive(a: Entry, b: Entry, c: Entry)
    requires EntryLess(a, b) && EntryLess(b, c)
    ensures EntryLess(a, c)
  {
    if StrLess(a.name, b.name) || StrLess(b.name, c.name) {
      if StrLess(a.name, b.name) && StrLess(b.name, c.name) {
        StrLessTransitive(a.name, b.name, c.name);
      }
    } else if StrLess(a.oid, b.oid) || StrLess(b.oid, c.oid) {
      if StrLess(a.oid, b.oid) && StrLess(b.oid, c.oid) {
        StrLessTransitive(a.oid, b.oid, c.oid);
      }
    } else {
      StrLessTransitive(a.kind, b.kind, c.kind);
    }
  }

  lemma EntryLessTotal(a: Entry, b: Entry)
    requires a != b
    ensures EntryLess(a, b) || EntryLess(b, a)
  {
    if a.name != b.name {
      StrLessTotal(a.name, b.name);
    } else if a.oid != b.oid {
      StrLessTotal(a.oid, b.oid);
    } else {
      StrLessTotal(a.kind, b.kind);
    }
  }

  lemma EntryLeqTransitive(a: Entry, b: Entry, c: Entry)
    requires EntryLeq(a, b) && EntryLeq(b, c)
    ensures EntryLeq(a, c)
  {
    if a != b && b != c {
      EntryLessTransitive(a, b, c);
    }
  }

  lemma EntryLeqAntisymmetric(a: Entry, b: Entry)
    requires EntryLeq(a, b) && EntryLeq(b, a)
    ensures a == b
  {
    if a != b {
      EntryLessTransitive(a, b, a);
      EntryLessIrreflexive(a);
    }
  }

  ghost predicate Sorted(s: seq<Entry>) {
    forall i, j :: 0 <= i < j < |s| ==> EntryLeq(s[i], s[j])
  }

  // ---------------------------------------------------------------------
  // Sorting (the result of Python's `sorted`, computed by insertion)
  // ---------------------------------------------------------------------

  /** An entry no greater than the head of a sorted sequence may precede it. */
  lemma SortedFront(e: Entry, s: seq<Entry>)
    requires Sorted(s) && s != [] && EntryLeq(e, s[0])
    ensures Sorted([e] + s)
  {
    forall j | 0 <= j < |s| ensures EntryLeq(e, s[j]) {
      if j > 0 { EntryLeqTransitive(e, s[0], s[j]); }
    }
  }

  /** The head of a sorted sequence may precede any arrangement of its tail
      and a greater entry. */
  lemma SortedBehind(e: Entry, s: seq<Entry>, t: seq<Entry>)
    requires Sorted(s) && s != [] && EntryLess(s[0], e)
    requires Sorted(t) && multiset(t) == multiset(s[1..]) + multiset{e}
    ensures Sorted([s[0]] + t)
  {
    forall j | 0 <= j < |t| ensures EntryLeq(s[0], t[j]) {
      assert t[j] in multiset(t);
      if t[j] != e {
        assert t[j] in multiset(s[1..]);
        var k :| 1 <= k < |s| && s[k] == t[j];
      }
    }
  }

  function Insert(e: Entry, s: seq<Entry>): (r: seq<Entry>)
    requires Sorted(s)
    ensures Sorted(r)
    ensures multiset(r) == multiset(s) + multiset{e}
    ensures |r| == |s| + 1
  {
    if s == [] then [e]
    else if EntryLeq(e, s[0]) then
      SortedFront(e, s);
      [e] + s
    else
      EntryLessTotal(e, s[0]);
      var t := Insert(e, s[1..]);
      SortedBehind(e, s, t);
      assert s == [s[0]] + s[1..];
      [s[0]] + t
  }

  /** The entries in ascending (name, oid, type) order. */
  function SortEntries(s: seq<Entry>): (r: seq<Entry>)
    ensures Sorted(r)
    ensures multiset(r) == multiset(s)
    ensures |r| == |s|
  {
    if s == [] then []
    else
      assert s == [s[0]] + s[1..];
      Insert(s[0], SortEntries(s[1..]))
  }

  /** The least element of a sorted sequence is its head. */
  lemma SortedHeadLeast(a: seq<Entry>, x: Entry)
    requires Sorted(a) && x in multiset(a)
    ensures EntryLeq(a[0], x)
  {
    var j :| 0 <= j < |a| && a[j] == x;
    if j > 0 {
      assert EntryLeq(a[0], a[j]);
    }
  }

  /** Two sorted arrangements of the same entries start alike. */
  lemma SortedHeads(a: seq<Entry>, b: seq<Entry>)
    requires Sorted(a) && Sorted(b) && a != []
    requires multiset(a) == multiset(b)
    ensures b != [] && a[0] == b[0]
  {
    assert a[0] in multiset(a);
    assert b != [];
    assert b[0] in multiset(b);
    SortedHeadLeast(a, b[0]);
    SortedHeadLeast(b, a[0]);
    EntryLeqAntisymmetric(a[0], b[0]);
  }

  lemma TailMultiset(a: seq<Entry>)
    requires a != []
    ensures multiset(a[1..]) == multiset(a) - multiset{a[0]}
  {
    assert a == [a[0]] + a[1..];
  }

  /** A sorted arrangement of given entries is unique. */
  lemma {:induction false} SortedUnique(a: seq<Entry>, b: seq<Entry>)
    requires Sorted(a) && Sorted(b)
    requires multiset(a) == multiset(b)
    ensures a == b
  {
    if a != [] {
      SortedHeads(a, b);
      TailMultiset(a);
      TailMultiset(b);
      SortedUnique(a[1..], b[1..]);
      assert a == [a[0]] + a[1..] && b == [b[0]] + b[1..];
    } else {
      assert |b| == |multiset(b)| == 0;
    }
  }

  // ---------------------------------------------------------------------
  // The record format
  // ---------------------------------------------------------------------

  /** One tree line without its terminator: "type oid name". */
  function EntryLine(e: Entry): string {
    e.kind + " " + e.oid + " " + e.name
  }

  function EntryLines(s: seq<Entry>): (lines: seq<string>)
  {
    seq(|s|, i requires 0 <= i < |s| => EntryLine(s[i]))
  }

  /** The payload `write_tree` hashes for a directory whose children are
      `entries`, collected in any order. */
  function WriteTree(entries: seq<Entry>): string
  {
    Unlines(EntryLines(SortEntries(entries)))
  }

  /** An entry the line format can carry unambiguously: type and oid hold no
      space, and no field holds a line boundary. Names may hold spaces. */
  predicate Writable(e: Entry) {
    && ' ' !in e.kind && ' ' !in e.oid
    && NoLineBreak(e.kind) && NoLineBreak(e.oid) && NoLineBreak(e.name)
  }

  /** `type_, oid, name = entry.split(' ', 2)`: the text up to the first
      space, up to the second, and the rest; fewer than two spaces cannot be
      unpacked. */
  function ParseEntry(line: string): (r: Outcome<Entry>)
    ensures r.Ok? ==> ' ' !in r.value.kind && ' ' !in r.value.oid
    ensures r.Err? ==> r.error == MalformedTree(line)
  {
    match SplitOnce(line, ' ')
    case None => Err(MalformedTree(line))
    case Some(first) =>
      match SplitOnce(first.1, ' ')
      case None => Err(MalformedTree(line))
      case Some(second) => Ok(Entry(second.1, second.0, first.0))
  }

  /** A line that parses is the line written for what it parses to. */
  lemma ParseEntryPrints(line: string)
    requires ParseEntry(line).Ok?
    ensures EntryLine(ParseEntry(line).value) == line
  {
    var first := SplitOnce(line, ' ').value;
    var second := SplitOnce(first.1, ' ').value;
    SpacedFields(line, first.0, first.1, second.0, second.1);
  }

  lemma SpacedFields(line: string, a: string, rest: string, b: string, c: string)
    requires line == a + [' '] + rest && rest == b + [' '] + c
    ensures line == a + " " + b + " " + c
  {
  }

  /** A line written for an entry parses back to that entry. */
  lemma ParseEntryLine(e: Entry)
    requires ' ' !in e.kind && ' ' !in e.oid
    ensures ParseEntry(EntryLine(e)) == Ok(e)
  {
    assert EntryLine(e) == e.kind + [' '] + (e.oid + " " + e.name);
    SplitOnceJoin(e.kind, ' ', e.oid + " " + e.name);
    assert e.oid + " " + e.name == e.oid + [' '] + e.name;
    SplitOnceJoin(e.oid, ' ', e.name);
  }

  /** Parses each line in turn; the first line that does not parse fails
      the whole. */
  function ParseLines(lines: seq<string>): (r: Outcome<seq<Entry>>)
    ensures r.Ok? ==> |r.value| == |lines|
    ensures r.Ok? ==> forall i :: 0 <= i < |lines| ==> ParseEntry(lines[i]) == Ok(r.value[i])
    ensures r.Err? ==> exists i :: 0 <= i < |lines| && ParseEntry(lines[i]).Err?
  {
    if lines == [] then Ok([])
    else
      match ParseEntry(lines[0])
      case Err(x) => Err(x)
      case Ok(e) =>
        match ParseLines(lines[1..])
        case Err(x) =>
          ParseFailureCons(lines);
          Err(x)
        case Ok(rest) =>
          ParsedCons(ParseEntry, lines, e, rest);
          Ok([e] + rest)
  }

  /** Parsing `lines` line by line extends parsing its tail. */
  lemma ParsedCons(parse: string -> Outcome<Entry>, lines: seq<string>, e: Entry, rest: seq<Entry>)
    requires lines != [] && parse(lines[0]) == Ok(e) && |rest| == |lines| - 1
    requires forall i :: 0 <= i < |rest| ==> parse(lines[1..][i]) == Ok(rest[i])
    ensures forall i :: 0 <= i < |lines| ==> parse(lines[i]) == Ok(([e] + rest)[i])
  {
    forall i | 0 <= i < |lines|
      ensures parse(lines[i]) == Ok(([e] + rest)[i])
    {
      if i > 0 {
        assert lines[i] == lines[1..][i - 1];
      }
    }
  }

  lemma ParseFailureCons(lines: seq<string>)
    requires lines != []
    requires exists i :: 0 <= i < |lines| - 1 && ParseEntry(lines[1..][i]).Err?
    ensures exists i :: 0 <= i < |lines| && ParseEntry(lines[i]).Err?
  {
    var i :| 0 <= i < |lines| - 1 && ParseEntry(lines[1..][i]).Err?;
    assert lines[1..][i] == lines[i + 1];
  }

  /** The entries of a tree payload, line by line. */
  function ParseTree(text: string): Outcome<seq<Entry>>
  {
    ParseLines(SplitLines(text))
  }

  /** `_iter_tree_entries(oid)`: nothing for an empty oid, otherwise the
      entries of the tree object stored at `oid`. */
  function IterTreeEntries(store: ObjectStore, oid: Oid): (r: Outcome<seq<Entry>>)
    ensures oid == "" ==> r == Ok([])
    ensures oid != "" && r.Ok? ==> oid in store && store[oid].kind == "tree"
    ensures oid != "" && oid !in store ==> r == Err(ObjectNotFound(oid))
    ensures oid != "" && oid in store && store[oid].kind == "tree" ==> r == ParseTree(store[oid].payload)
  {
    if oid == "" then Ok([])
    else
      var text :- GetObject(store, oid, Some("tree"));
      ParseTree(text)
  }

  // ---------------------------------------------------------------------
  // Properties
  // ---------------------------------------------------------------------

  /** Determinism: the payload depends only on which entries there are, not
      on the order the directory listing produced them in. */
  lemma WriteTreeDeterministic(a: seq<Entry>, b: seq<Entry>)
    requires multiset(a) == multiset(b)
    ensures WriteTree(a) == WriteTree(b)
  {
    SortedUnique(SortEntries(a), SortEntries(b));
  }

  /** The payload holds one line per entry, "type oid name", in ascending
      (name, oid, type) order. */
  lemma WriteTreeLines(entries: seq<Entry>)
    requires forall i :: 0 <= i < |entries| ==> Writable(entries[i])
    ensures var lines := SplitLines(WriteTree(entries));
      && |lines| == |entries|
      && (forall i, j :: 0 <= i < j < |lines| ==> EntryLeq(SortEntries(entries)[i], SortEntries(entries)[j]))
      && (forall i :: 0 <= i < |lines| ==> lines[i] == EntryLine(SortEntries(entries)[i]))
      && multiset(SortEntries(entries)) == multiset(entries)
  {
    var sorted := SortEntries(entries);
    assert forall i :: 0 <= i < |sorted| ==> Writable(sorted[i]) by {
      forall i | 0 <= i < |sorted| ensures Writable(sorted[i]) {
        assert sorted[i] in multiset(entries);
      }
    }
    LinesOfWritable(sorted);
    SplitLinesUnlines(EntryLines(sorted));
  }

  lemma LinesOfWritable(s: seq<Entry>)
    requires forall i :: 0 <= i < |s| ==> Writable(s[i])
    ensures forall k :: 0 <= k < |EntryLines(s)| ==> NoLineBreak(EntryLines(s)[k])
  {
    forall k | 0 <= k < |s| ensures NoLineBreak(EntryLine(s[k])) {
      var e := s[k];
      assert EntryLine(e) == e.kind + [' '] + e.oid + [' '] + e.name;
      assert !IsLineBreak(' ');
    }
  }

  /** Round trip: parsing the payload `write_tree` produced yields exactly the
      entries in sorted order. */
  lemma TreeRoundTrip(entries: seq<Entry>)
    requires forall i :: 0 <= i < |entries| ==> Writable(entries[i])
    ensures ParseTree(WriteTree(entries)) == Ok(SortEntries(entries))
  {
    var sorted := SortEntries(entries);
    WriteTreeLines(entries);
    var lines := SplitLines(WriteTree(entries));
    assert forall i :: 0 <= i < |sorted| ==> Writable(sorted[i]) by {
      forall i | 0 <= i < |sorted| ensures Writable(sorted[i]) {
        assert sorted[i] in multiset(entries);
      }
    }
    ParseAllLines(sorted, lines);
  }

  lemma {:induction false} ParseAllLines(s: seq<Entry>, lines: seq<string>)
    requires |s| == |lines|
    requires forall i :: 0 <= i < |s| ==> Writable(s[i]) && lines[i] == EntryLine(s[i])
    ensures ParseLines(lines) == Ok(s)
  {
    if s != [] {
      ParseEntryLine(s[0]);
      ParseAllLines(s[1..], lines[1..]);
      assert s == [s[0]] + s[1..];
    }
  }

  // ---------------------------------------------------------------------
  // Names holding a line boundary
  // ---------------------------------------------------------------------

  /** A directory with a single child sorts to just that child. */
  lemma SortOne(e: Entry)
    ensures SortEntries([e]) == [e]
  {
    var r := SortEntries([e]);
    assert r[0] in multiset(r);
  }

  /** The record of a single child is its line and "\n". */
  lemma WriteOne(e: Entry)
    ensures WriteTree([e]) == EntryLine(e) + "\n"
  {
    SortOne(e);
    assert EntryLines([e]) == [EntryLine(e)];
    assert Unlines([EntryLine(e)]) == EntryLine(e) + "\n" + Unlines([]);
  }

  lemma InjectedRecord(e: Entry, a: string, hidden: Entry)
    requires e.name == a + "\r" + EntryLine(hidden)
    ensures WriteTree([e]) == EntryLine(Entry(a, e.oid, e.kind)) + "\r" + (EntryLine(hidden) + "\n")
  {
    WriteOne(e);
    assert EntryLine(e) == EntryLine(Entry(a, e.oid, e.kind)) + "\r" + EntryLine(hidden);
  }

  /** As written, `write_tree` puts a name into the record verbatim, and
      `splitlines` also breaks at "\r". A child whose name is `a`, "\r" and
      then a whole tree line reads back as two children: `a` and the entry
      that line describes. */
  lemma NameInjectsEntry(e: Entry, a: string, hidden: Entry)
    requires ' ' !in e.kind && ' ' !in e.oid
    requires NoLineBreak(e.kind) && NoLineBreak(e.oid) && NoLineBreak(a)
    requires Writable(hidden)
    requires e.name == a + "\r" + EntryLine(hidden)
    ensures ParseTree(WriteTree([e])) == Ok([Entry(a, e.oid, e.kind), hidden])
  {
    var first := Entry(a, e.oid, e.kind);
    InjectedLines(e, a, hidden);
    ParseAllLines([first, hidden], [EntryLine(first), EntryLine(hidden)]);
  }

  lemma InjectedLines(e: Entry, a: string, hidden: Entry)
    requires Writable(Entry(a, e.oid, e.kind)) && Writable(hidden)
    requires e.name == a + "\r" + EntryLine(hidden)
    ensures SplitLines(WriteTree([e])) == [EntryLine(Entry(a, e.oid, e.kind)), EntryLine(hidden)]
  {
    var line := EntryLine(hidden);
    InjectedRecord(e, a, hidden);
    LineOfWritable(Entry(a, e.oid, e.kind));
    LineOfWritable(hidden);
    SplitLinesStepCR(EntryLine(Entry(a, e.oid, e.kind)), line + "\n");
    SplitLinesUnlines([line]);
    assert Unlines([line]) == line + "\n" + Unlines([]);
  }

  /** A writable entry's line holds no line boundary and does not start
      with "\n". */
  lemma LineOfWritable(e: Entry)
    requires Writable(e)
    ensures NoLineBreak(EntryLine(e))
    ensures (EntryLine(e) + "\n")[0] != '\n'
  {
    LinesOfWritable([e]);
    assert EntryLines([e])[0] == EntryLine(e);
    assert (EntryLine(e) + "\n")[0] == EntryLine(e)[0];
  }

  /** The file "a\rblob X b" with oid "O" reads back as the blobs "a" (oid
      "O") and "b" (oid "X"). */
  lemma InjectedBlob()
    ensures ParseTree(WriteTree([Entry("a\rblob X b", "O", "blob")]))
         == Ok([Entry("a", "O", "blob"), Entry("b", "X", "blob")])
  {
    var hidden := Entry("b", "X", "blob");
    assert EntryLine(hidden) == "blob X b";
    assert "a\rblob X b" == "a" + "\r" + EntryLine(hidden);
    NameInjectsEntry(Entry("a\rblob X b", "O", "blob"), "a", hidden);
  }

  /** Index of the first entry the record format cannot carry, or the
      number of entries when every one is writable. */
  function FirstUnwritable(entries: seq<Entry>): (k: nat)
    ensures k <= |entries|
    ensures forall i | 0 <= i < k :: Writable(entries[i])
    ensures k < |entries| ==> !Writable(entries[k])
  {
    if entries == [] || !Writable(entries[0]) then 0
    else 1 + FirstUnwritable(entries[1..])
  }

  /** `write_tree`'s serialisation refusing an entry the format cannot
      carry (a name with a line boundary, a type or oid with a space or a
      line boundary), so that every record it writes reads back as the
      entries written. */
  function WriteTreeChecked(entries: seq<Entry>): (r: Outcome<string>)
    ensures r.Ok? <==> forall i | 0 <= i < |entries| :: Writable(entries[i])
    ensures r.Ok? ==> r.value == WriteTree(entries) && ParseTree(r.value) == Ok(SortEntries(entries))
    ensures r.Err? ==> exists i | 0 <= i < |entries| :: !Writable(entries[i]) && r.error == UnwritableEntry(entries[i].name)
  {
    var k := FirstUnwritable(entries);
    if k < |entries| then Err(UnwritableEntry(entries[k].name))
    else TreeRoundTrip(entries); Ok(WriteTree(entries))
  }

  /** A tree stored from the checked writer reads back, through
      `_iter_tree_entries`, as exactly the entries written, sorted. */
  lemma CheckedTreeReads(store: ObjectStore, t: Oid, entries: seq<Entry>)
    requires WriteTreeChecked(entries).Ok?
    requires t != "" && t in store && store[t] == Object("tree", WriteTreeChecked(entries).value)
    ensures IterTreeEntries(store, t) == Ok(SortEntries(entries))
  {
  }
}
