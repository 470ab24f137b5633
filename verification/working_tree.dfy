/** base.py's side of the working directory: what `read_tree` writes, what
    `checkout` reads and which HEAD it writes, and `is_ignored`. */
module WorkingTree {

  import opened Wrappers
  import opened Text
  import opened Objects
  import opened Sequences
  import opened OrderedMaps
  import opened TreeCodec
  import opened Commits
  import opened TreeFlatten
  import opened Refs

  // ---------------------------------------------------------------------
  // read_tree
  // ---------------------------------------------------------------------

  /** Every path of `paths` names a stored object. */
  ghost predicate AllStored(store: ObjectStore, paths: seq<Path>, tree: map<Path, Oid>)
    requires forall i | 0 <= i < |paths| :: paths[i] in tree
  {
    forall i | 0 <= i < |paths| :: tree[paths[i]] in store
  }

  /** `files` holds exactly the contents of the objects `paths` name. */
  ghost predicate FilesOf(store: ObjectStore, paths: seq<Path>, tree: map<Path, Oid>, files: map<Path, string>)
    requires forall i | 0 <= i < |paths| :: paths[i] in tree && tree[paths[i]] in store
  {
    && (forall p :: p in files <==> p in paths)
    && (forall i | 0 <= i < |paths| :: files[paths[i]] == store[tree[paths[i]]].payload)
  }

  /** `i` is the first path whose object is missing. */
  ghost predicate FirstMissing(store: ObjectStore, paths: seq<Path>, tree: map<Path, Oid>, i: int)
    requires forall i | 0 <= i < |paths| :: paths[i] in tree
  {
    && 0 <= i < |paths|
    && tree[paths[i]] !in store
    && (forall j | 0 <= j < i :: tree[paths[j]] in store)
  }

  /** The contents `read_tree` writes for `paths`, in order; the first path
      whose object is missing stops it. */
  function ReadFiles(store: ObjectStore, paths: seq<Path>, tree: map<Path, Oid>): (r: Outcome<map<Path, string>>)
    requires forall i | 0 <= i < |paths| :: paths[i] in tree
    ensures r.Ok? <==> AllStored(store, paths, tree)
    ensures r.Ok? ==> FilesOf(store, paths, tree, r.value)
    ensures r.Err? ==> exists i :: FirstMissing(store, paths, tree, i) && r.error == ObjectNotFound(tree[paths[i]])
    decreases |paths|
  {
    if paths == [] then Ok(map[])
    else
      var p := paths[0];
      match GetObject(store, tree[p], None)
      case Err(e) =>
        assert FirstMissing(store, paths, tree, 0);
        Err(e)
      case Ok(content) =>
        match ReadFiles(store, paths[1..], tree)
        case Err(e) =>
          MissingShift(store, paths, tree, e);
          Err(e)
        case Ok(rest) =>
          FilesCons(store, paths, tree, rest);
          Ok(rest[p := content])
  }

  lemma MissingShift(store: ObjectStore, paths: seq<Path>, tree: map<Path, Oid>, e: Error)
    requires forall i | 0 <= i < |paths| :: paths[i] in tree
    requires paths != [] && tree[paths[0]] in store
    requires exists i :: FirstMissing(store, paths[1..], tree, i) && e == ObjectNotFound(tree[paths[1..][i]])
    ensures exists i :: FirstMissing(store, paths, tree, i) && e == ObjectNotFound(tree[paths[i]])
  {
    var i :| FirstMissing(store, paths[1..], tree, i) && e == ObjectNotFound(tree[paths[1..][i]]);
    assert paths[i + 1] == paths[1..][i];
    forall j | 0 <= j < i + 1 ensures tree[paths[j]] in store {
      if j > 0 {
        assert paths[j] == paths[1..][j - 1];
      }
    }
  }

  lemma FilesCons(store: ObjectStore, paths: seq<Path>, tree: map<Path, Oid>, rest: map<Path, string>)
    requires forall i | 0 <= i < |paths| :: paths[i] in tree
    requires paths != [] && tree[paths[0]] in store && AllStored(store, paths[1..], tree)
    requires FilesOf(store, paths[1..], tree, rest)
    ensures AllStored(store, paths, tree)
    ensures FilesOf(store, paths, tree, rest[paths[0] := store[tree[paths[0]]].payload])
  {
    var p := paths[0];
    assert forall i | 1 <= i < |paths| :: paths[i] == paths[1..][i - 1];
    assert forall q :: q in paths <==> q == p || q in paths[1..];
  }

  /** The objects of a flattened tree are all stored exactly when the objects
      of its keys, listed in order, are. */
  lemma StoredKeys(store: ObjectStore, d: FlatTree)
    requires Valid(d)
    ensures AllStored(store, d.keys, d.items) <==> forall p | p in d.items :: d.items[p] in store
  {
    if AllStored(store, d.keys, d.items) {
      forall p | p in d.items ensures d.items[p] in store {
        var i :| 0 <= i < |d.keys| && d.keys[i] == p;
      }
    }
  }

  /** `read_tree(tree_oid)`: the flattened tree under "./", and the content
      of each of its blobs. */
  function ReadTree(store: ObjectStore, treeOid: Oid, fuel: nat): (r: Outcome<map<Path, string>>)
    ensures r.Ok? <==> && GetTree(store, treeOid, "./", fuel).Ok?
                       && var d := GetTree(store, treeOid, "./", fuel).value;
                          forall p | p in d.items :: d.items[p] in store
    ensures r.Ok? ==> var d := GetTree(store, treeOid, "./", fuel).value;
      && (forall p :: p in r.value <==> p in d.items)
      && (forall p | p in d.items :: r.value[p] == store[d.items[p]].payload)
  {
    var d :- GetTree(store, treeOid, "./", fuel);
    StoredKeys(store, d);
    ReadFiles(store, d.keys, d.items)
  }

  // ---------------------------------------------------------------------
  // checkout
  // ---------------------------------------------------------------------

  /** What `checkout` leaves behind: the files `read_tree` wrote, and the
      new value of HEAD. */
  datatype CheckoutState = CheckoutState(files: map<Path, string>, head: RefValue)

  /** The oid `checkout` reads the commit of, where a `None` from the lookup
      is a failure (`get_commit(None)` raises). */
  function CommitOid(r: Outcome<Option<Oid>>, name: string): Outcome<Oid> {
    match r
    case Err(e) => Err(e)
    case Ok(None) => Err(NoOid(name))
    case Ok(Some(oid)) => Ok(oid)
  }

  /** Reads the commit at `oid` and the tree it records: the files
      `read_tree` writes for it. */
  function CommitFiles(store: ObjectStore, oid: Oid, fuel: nat): (r: Outcome<map<Path, string>>)
    ensures r.Ok? <==> GetCommit(store, oid).Ok? && ReadTree(store, GetCommit(store, oid).value.tree, fuel).Ok?
    ensures r.Ok? ==> r == ReadTree(store, GetCommit(store, oid).value.tree, fuel)
  {
    var commit :- GetCommit(store, oid);
    ReadTree(store, commit.tree, fuel)
  }

  /** Reading a commit's files with more fuel than needed reads the same. */
  lemma CommitFilesMonotone(store: ObjectStore, oid: Oid, fuel: nat, more: nat)
    requires fuel <= more && CommitFiles(store, oid, fuel).Ok?
    ensures CommitFiles(store, oid, more) == CommitFiles(store, oid, fuel)
  {
    var t := GetCommit(store, oid).value.tree;
    GetTreeMonotone(store, t, "./", fuel, more);
  }

  /** `checkout(name)` as written: the commit comes from `get_oid(name)`,
      and HEAD becomes symbolic exactly when `name` is a branch. */
  function CheckoutAsWritten(store: ObjectStore, getRef: RefReader, name: string, fuel: nat)
    : (r: Outcome<CheckoutState>)
    ensures r.Ok? <==> && GetOid(getRef, name).Ok? && GetOid(getRef, name).value.Some?
                       && CommitFiles(store, GetOid(getRef, name).value.value, fuel).Ok?
    ensures r.Ok? ==> var oid := GetOid(getRef, name).value.value;
      && GetCommit(store, oid).Ok?
      && ReadTree(store, GetCommit(store, oid).value.tree, fuel) == Ok(r.value.files)
    ensures r.Ok? ==> (r.value.head.symbolic <==> IsBranch(getRef, name))
    ensures r.Ok? && r.value.head.symbolic ==> r.value.head.value == Some("refs/heads/" + name)
    ensures r.Ok? && !r.value.head.symbolic ==> r.value.head.value == GetOid(getRef, name).value
  {
    var oid :- CommitOid(GetOid(getRef, name), name);
    var files :- CommitFiles(store, oid, fuel);
    var head := if IsBranch(getRef, name) then RefValue(true, Some("refs/heads/" + name))
                else RefValue(false, Some(oid));
    Ok(CheckoutState(files, head))
  }

  /** The commit a HEAD value names, reading a symbolic HEAD through the
      ref it points to. */
  function HeadCommit(getRef: RefReader, head: RefValue): Option<Oid> {
    if head.symbolic && head.value.Some? then getRef(head.value.value, true).value else head.value
  }

  /** `checkout(name)` taking the commit from the branch whenever `name` is
      a branch, so that a symbolic HEAD names the commit whose tree was
      read. */
  function Checkout(store: ObjectStore, getRef: RefReader, name: string, fuel: nat)
    : (r: Outcome<CheckoutState>)
    ensures IsBranch(getRef, name) ==>
      (r.Ok? <==> CommitFiles(store, getRef("refs/heads/" + name, true).value.value, fuel).Ok?)
    ensures r.Ok? ==> (r.value.head.symbolic <==> IsBranch(getRef, name))
    ensures r.Ok? && r.value.head.symbolic ==> r.value.head.value == Some("refs/heads/" + name)
    ensures r.Ok? ==> var oid := HeadCommit(getRef, r.value.head);
      && oid.Some?
      && GetCommit(store, oid.value).Ok?
      && ReadTree(store, GetCommit(store, oid.value).value.tree, fuel) == Ok(r.value.files)
    ensures !IsBranch(getRef, name) ==> r == CheckoutAsWritten(store, getRef, name, fuel)
  {
    var found := if IsBranch(getRef, name) then Ok(getRef("refs/heads/" + name, true).value)
                 else GetOid(getRef, name);
    var oid :- CommitOid(found, name);
    var files :- CommitFiles(store, oid, fuel);
    var head := if IsBranch(getRef, name) then RefValue(true, Some("refs/heads/" + name))
                else RefValue(false, Some(oid));
    Ok(CheckoutState(files, head))
  }

  /** A checkout that succeeds with some fuel has the same result with more. */
  lemma CheckoutMonotone(store: ObjectStore, getRef: RefReader, name: string, fuel: nat, more: nat)
    requires fuel <= more
    ensures CheckoutAsWritten(store, getRef, name, fuel).Ok? ==>
      CheckoutAsWritten(store, getRef, name, more) == CheckoutAsWritten(store, getRef, name, fuel)
    ensures Checkout(store, getRef, name, fuel).Ok? ==>
      Checkout(store, getRef, name, more) == Checkout(store, getRef, name, fuel)
  {
    var found := if IsBranch(getRef, name) then Ok(getRef("refs/heads/" + name, true).value)
                 else GetOid(getRef, name);
    if CommitOid(found, name).Ok? && CommitFiles(store, CommitOid(found, name).value, fuel).Ok? {
      CommitFilesMonotone(store, CommitOid(found, name).value, fuel, more);
    }
    if CommitOid(GetOid(getRef, name), name).Ok?
       && CommitFiles(store, CommitOid(GetOid(getRef, name), name).value, fuel).Ok? {
      CommitFilesMonotone(store, CommitOid(GetOid(getRef, name), name).value, fuel, more);
    }
  }

  // ---------------------------------------------------------------------
  // A tag and a branch of the same name
  // ---------------------------------------------------------------------

  /** The tree record of a directory holding the single file `name`. */
  function OneFileTree(name: string, blob: Oid): string {
    EntryLine(Entry(name, blob, "blob")) + "\n"
  }

  /** The record of a one-file tree splits into that file's line. */
  lemma OneFileLines(name: string, blob: Oid)
    requires Writable(Entry(name, blob, "blob"))
    ensures SplitLines(OneFileTree(name, blob)) == [EntryLine(Entry(name, blob, "blob"))]
  {
    var e := Entry(name, blob, "blob");
    LinesOfWritable([e]);
    assert EntryLines([e])[0] == EntryLine(e);
    SplitLinesStep(EntryLine(e), "");
    assert EntryLine(e) + "\n" + "" == OneFileTree(name, blob);
  }

  /** Flattening the line of one accepted blob entry puts just that blob. */
  lemma FlattenOneFile(store: ObjectStore, line: string, e: Entry)
    requires ParseEntry(line) == Ok(e) && ValidName(e.name) && e.kind == "blob"
    ensures FlattenLines(store, [line], "./", 0, Empty()) == Ok(Put(Empty(), "./" + e.name, e.oid))
  {
    assert [line][1..] == [];
  }

  /** `get_tree` of a one-file tree holds just that file. */
  lemma GetOneFileTree(store: ObjectStore, t: Oid, name: string, blob: Oid)
    requires t != "" && t in store && store[t] == Object("tree", OneFileTree(name, blob))
    requires ValidName(name) && Writable(Entry(name, blob, "blob"))
    ensures GetTree(store, t, "./", 1) == Ok(Put(Empty(), "./" + name, blob))
  {
    var e := Entry(name, blob, "blob");
    OneFileLines(name, blob);
    ParseEntryLine(e);
    FlattenOneFile(store, EntryLine(e), e);
  }

  /** Reading the content of one stored object. */
  lemma ReadOneFile(store: ObjectStore, p: Path, blob: Oid)
    requires blob in store
    ensures ReadFiles(store, [p], map[p := blob]) == Ok(map[p := store[blob].payload])
  {
    assert [p][1..] == [];
  }

  /** Reading a tree that holds one file writes just that file. */
  lemma ReadOneFileTree(store: ObjectStore, t: Oid, name: string, blob: Oid)
    requires t != "" && t in store && store[t] == Object("tree", OneFileTree(name, blob))
    requires blob in store
    requires ValidName(name) && Writable(Entry(name, blob, "blob"))
    ensures ReadTree(store, t, 1) == Ok(map["./" + name := store[blob].payload])
  {
    GetOneFileTree(store, t, name, blob);
    var d := Put(Empty(), "./" + name, blob);
    assert d.keys == ["./" + name] && d.items == map["./" + name := blob];
    ReadOneFile(store, "./" + name, blob);
  }

  /** Commit "a" holds one file "f" with content "from tag", commit "b" one
      file "f" with content "from branch". */
  function TwoCommits(): ObjectStore {
    map["a" := Object("commit", CommitRecord("ta", None, "tag")),
        "b" := Object("commit", CommitRecord("tb", None, "branch")),
        "ta" := Object("tree", OneFileTree("f", "xa")),
        "tb" := Object("tree", OneFileTree("f", "xb")),
        "xa" := Object("blob", "from tag"),
        "xb" := Object("blob", "from branch")]
  }

  /** A ref store where "v" names both a tag (at commit "a") and a branch (at
      commit "b"). */
  function TagAndBranch(): RefReader {
    (ref: string, deref: bool) =>
      if ref == "refs/tags/v" then RefValue(false, Some("a"))
      else if ref == "refs/heads/v" then RefValue(false, Some("b"))
      else RefValue(false, None)
  }

  /** `get_oid` finds the tag before the branch. */
  lemma TagFoundFirst()
    ensures GetOid(TagAndBranch(), "v") == Ok(Some("a"))
  {
    var refs := Candidates("v");
    assert refs[2] == "refs/tags/v" && refs[0] != "refs/tags/v" && refs[1] != "refs/tags/v";
    assert refs[0] != "refs/heads/v" && refs[1] != "refs/heads/v";
    assert FirstSet(TagAndBranch(), refs, 0) == Some(2);
  }

  /** "v" is also a branch, whose ref holds commit "b". */
  lemma BranchToo()
    ensures IsBranch(TagAndBranch(), "v")
    ensures "refs/heads/" + "v" == "refs/heads/v"
    ensures TagAndBranch()("refs/heads/v", true) == RefValue(false, Some("b"))
  {
    assert "refs/heads/" + "v" == "refs/heads/v";
  }

  /** The objects of one commit of `TwoCommits()`: the commit `c` of tree
      `t`, which holds the blob `blob` as file "f". */
  ghost predicate ExampleCommit(store: ObjectStore, c: Oid, t: Oid, blob: Oid, message: string) {
    && store == TwoCommits()
    && ((c, t, blob, message) == ("a", "ta", "xa", "tag") || (c, t, blob, message) == ("b", "tb", "xb", "branch"))
  }

  lemma ExampleObjects(store: ObjectStore, c: Oid, t: Oid, blob: Oid, message: string)
    requires ExampleCommit(store, c, t, blob, message)
    ensures c in store && store[c] == Object("commit", CommitRecord(t, None, message))
    ensures t != "" && t in store && store[t] == Object("tree", OneFileTree("f", blob)) && blob in store
    ensures NoLineBreak(t) && forall k | 0 <= k < |message| :: !IsLineBreak(message[k])
    ensures ValidName("f") && Writable(Entry("f", blob, "blob"))
  {
  }

  /** The tree of an example commit writes its one file. */
  lemma ExampleTree(store: ObjectStore, c: Oid, t: Oid, blob: Oid, message: string)
    requires ExampleCommit(store, c, t, blob, message)
    ensures ReadTree(store, t, 1) == Ok(map["./" + "f" := store[blob].payload])
  {
    ExampleObjects(store, c, t, blob, message);
    ReadOneFileTree(store, t, "f", blob);
  }

  /** Checking out an example commit writes its one file. */
  lemma ExampleFiles(store: ObjectStore, c: Oid, t: Oid, blob: Oid, message: string)
    requires ExampleCommit(store, c, t, blob, message)
    ensures CommitFiles(store, c, 1) == Ok(map["./f" := store[blob].payload])
  {
    ExampleCommitRead(store, c, t, blob, message);
    ExampleTree(store, c, t, blob, message);
    assert "./" + "f" == "./f";
  }

  lemma ExampleCommitRead(store: ObjectStore, c: Oid, t: Oid, blob: Oid, message: string)
    requires ExampleCommit(store, c, t, blob, message)
    ensures GetCommit(store, c) == Ok(Commit(t, None, message))
  {
    ExampleObjects(store, c, t, blob, message);
    CommitRecordRoundTrip(t, None, message);
  }

  /** Commit "a" writes "f" with "from tag", commit "b" with "from branch". */
  lemma CommitsFiles(store: ObjectStore)
    requires store == TwoCommits()
    ensures CommitFiles(store, "a", 1) == Ok(map["./f" := "from tag"])
    ensures CommitFiles(store, "b", 1) == Ok(map["./f" := "from branch"])
  {
    ExampleFiles(store, "a", "ta", "xa", "tag");
    ExampleFiles(store, "b", "tb", "xb", "branch");
  }

  /** As written, checking out a name that is both a tag and a branch writes
      the tag's files but points HEAD at the branch, whose commit holds
      other files. */
  lemma TagShadowsBranch(store: ObjectStore)
    requires store == TwoCommits()
    ensures var r := CheckoutAsWritten(store, TagAndBranch(), "v", 1);
      && r.Ok?
      && r.value.files == map["./f" := "from tag"]
      && r.value.head == RefValue(true, Some("refs/heads/v"))
      && HeadCommit(TagAndBranch(), r.value.head) == Some("b")
      && CommitFiles(store, "b", 1) == Ok(map["./f" := "from branch"])
  {
    TagFoundFirst();
    CommitsFiles(store);
    BranchToo();
  }

  /** With the commit taken from the branch, the same checkout writes the
      branch's files. */
  lemma BranchCheckedOut(store: ObjectStore)
    requires store == TwoCommits()
    ensures Checkout(store, TagAndBranch(), "v", 1)
         == Ok(CheckoutState(map["./f" := "from branch"], RefValue(true, Some("refs/heads/v"))))
  {
    CommitsFiles(store);
    BranchToo();
  }

  // ---------------------------------------------------------------------
  // is_ignored
  // ---------------------------------------------------------------------

  /** `is_ignored(path)`: some "/"-separated component is ".ugit". */
  function IsIgnored(path: Path): (r: bool)
    ensures r <==> HasPiece(path, '/', ".ugit")
  {
    SplitPieces(path, '/', ".ugit");
    ".ugit" in Split(path, '/')
  }
}
